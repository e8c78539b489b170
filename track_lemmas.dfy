/** Properties of the highway geometry in module Track. */
module TrackLemmas {
  import opened FloatMath
  import opened Track

  /* ---------- one section ---------- */

  /** A well-formed section is never shorter than zero in a lane at or beyond lane 0. */
  lemma SectionLengthNonnegative(section: Section, lane: real)
    requires section.curveRadius >= 0.0 && section.lane0Length >= 0.0 && lane >= 0.0
    ensures section.LaneLength(lane) >= 0.0
  {
  }

  /** A straight section has the same length in every lane: its stored lane-0 length. */
  lemma StraightLengthLaneIndependent(section: Section, lane: real, otherLane: real)
    requires section.curveRadius <= 0.0
    ensures section.LaneLength(lane) == section.LaneLength(otherLane) == section.lane0Length
  {
  }

  /** On a curve, a lane further out is longer. */
  lemma CurveOuterLaneLonger(section: Section, lane: real, outerLane: real)
    requires section.curveRadius > 0.0 && lane < outerLane
    ensures section.LaneLength(lane) < section.LaneLength(outerLane)
  {
    var grow := (outerLane - lane) * LaneSpacing;
    assert grow > 0.0;
    assert section.Radius(outerLane) == section.Radius(lane) + grow;
    assert section.Radius(outerLane) * Pi == section.Radius(lane) * Pi + grow * Pi;
  }

  /** Straight-section lanes sit symmetrically about the road's middle line, one
      `LaneSpacing` apart, lane 0 on the positive side. */
  lemma LaneOffsetsSymmetric(lane: real)
    ensures Section.LaneOffset(lane) + Section.LaneOffset(LastLane() - lane) == 0.0
    ensures Section.LaneOffset(lane + 1.0) == Section.LaneOffset(lane) - LaneSpacing
  {
  }

  /** A product with a positive factor is non-negative only if the other factor is. */
  lemma NonnegativeFactor(a: real, b: real)
    requires b > 0.0
    ensures a * b >= 0.0 ==> a >= 0.0
  {
    if a < 0.0 {
      assert (-a) * b > 0.0;
    }
  }

  /** Over a curve the heading turns by less than a quarter turn: a local distance within
      the section's length in the lane gives `rotY` in [0, Pi/2). */
  lemma CurveHeadingWithinQuarterTurn(section: Section, localDistance: real, lane: real)
    requires section.curveRadius > 0.0 && lane >= 0.0
    requires 0.0 <= localDistance < section.LaneLength(lane)
    ensures 0.0 <= section.LocalPosition(localDistance, lane).rotY
    ensures section.LocalPosition(localDistance, lane).rotY * 2.0 < Pi
  {
    var r := section.Radius(lane);
    var rotY := section.LocalPosition(localDistance, lane).rotY;
    assert r > 0.0;
    assert rotY * r == localDistance;
    assert (Pi - rotY * 2.0) * r == r * Pi - localDistance * 2.0;
    assert (Pi - rotY * 2.0) * r > 0.0;
    PositiveFactor(Pi - rotY * 2.0, r);
    NonnegativeFactor(rotY, r);
  }

  /* ---------- the whole lane ---------- */

  /** Dropping the last section keeps the rest well formed. */
  lemma WellFormedPrefix(s: seq<Section>, k: nat)
    requires WellFormed(s) && k <= |s|
    ensures WellFormed(s[..k])
  {
  }

  /** Well-formed tracks have no zero radius in a lane at or beyond lane 0. */
  lemma WellFormedRadii(s: seq<Section>, lane: real)
    requires WellFormed(s) && lane >= 0.0
    ensures NonzeroRadii(s, lane)
  {
    forall i | 0 <= i < |s| && s[i].curveRadius != 0.0
      ensures s[i].Radius(lane) != 0.0
    {
      assert lane * LaneSpacing >= 0.0;
    }
  }

  /** A lane of a well-formed track is never shorter than zero. */
  lemma {:induction false} TrackLengthNonnegative(s: seq<Section>, lane: real)
    requires WellFormed(s) && lane >= 0.0
    ensures TrackLength(s, lane) >= 0.0
  {
    if s != [] {
      WellFormedPrefix(s, |s| - 1);
      TrackLengthNonnegative(s[..|s| - 1], lane);
      SectionLengthNonnegative(s[|s| - 1], lane);
    }
  }

  /** The length of a lane over two runs of sections is the sum of their lengths. */
  lemma {:induction false} TrackLengthConcat(a: seq<Section>, b: seq<Section>, lane: real)
    ensures TrackLength(a + b, lane) == TrackLength(a, lane) + TrackLength(b, lane)
    decreases |b|
  {
    if b == [] {
      assert a + b == a;
    } else {
      var front := b[..|b| - 1];
      TrackLengthConcat(a, front, lane);
      assert (a + b)[..|a + b| - 1] == a + front;
    }
  }

  /** The last section ends where the lane does. */
  lemma LastSectionEndsLane(s: seq<Section>, lane: real)
    requires |s| > 0
    ensures SectionEnd(s, |s| - 1, lane) == TrackLength(s, lane)
  {
    assert s[..|s|] == s;
  }

  /** On a well-formed track, later sections start no earlier. */
  lemma {:induction false} StartsMonotone(s: seq<Section>, lane: real, j: nat, k: nat)
    requires WellFormed(s) && lane >= 0.0 && j <= k <= |s|
    ensures SectionStart(s, j, lane) <= SectionStart(s, k, lane)
    decreases k - j
  {
    if j < k {
      StartsMonotone(s, lane, j, k - 1);
      SectionLengthNonnegative(s[k - 1], lane);
      assert SectionStart(s, k, lane) == SectionEnd(s, k - 1, lane);
    }
  }

  /** On a well-formed track every section lies within [0, lane length] in every lane at or beyond lane 0. */
  lemma SectionWithinLane(s: seq<Section>, lane: real, k: nat)
    requires WellFormed(s) && lane >= 0.0 && k < |s|
    ensures 0.0 <= SectionStart(s, k, lane) <= SectionEnd(s, k, lane) <= TrackLength(s, lane)
  {
    StartsMonotone(s, lane, 0, k);
    assert s[..0] == [];
    SectionLengthNonnegative(s[k], lane);
    StartsMonotone(s, lane, k + 1, |s|);
    assert SectionEnd(s, k, lane) == SectionStart(s, k + 1, lane);
    assert s[..|s|] == s;
  }

  /** If some lane of a well-formed track has positive length, so does every lane at or beyond lane 0:
      straight sections are equally long in all lanes and curves are positive in all of them. */
  lemma {:induction false} PositiveLengthInEveryLane(s: seq<Section>, lane: real, otherLane: real)
    requires WellFormed(s) && lane >= 0.0 && otherLane >= 0.0
    requires TrackLength(s, lane) > 0.0
    ensures TrackLength(s, otherLane) > 0.0
  {
    var front := s[..|s| - 1];
    var last := s[|s| - 1];
    WellFormedPrefix(s, |s| - 1);
    SectionLengthNonnegative(last, otherLane);
    if TrackLength(front, lane) > 0.0 {
      PositiveLengthInEveryLane(front, lane, otherLane);
    } else {
      TrackLengthNonnegative(front, otherLane);
      assert last.LaneLength(lane) > 0.0;
      if last.curveRadius <= 0.0 {
        StraightLengthLaneIndependent(last, lane, otherLane);
      }
    }
  }

  /** A track built from straight pieces only is, in every lane, as long as the sum of the
      pieces' lane-0 lengths: the amount one `Create` adds to `Lane0Length`. */
  lemma {:induction false} StraightTrackLengthIsLane0Sum(pieces: seq<HighwayPiece>, lane: real)
    requires forall i :: 0 <= i < |pieces| ==> pieces[i].curveRadiusLane0 <= 0.0
    ensures TrackLength(SectionsOf(pieces), lane) == Lane0Sum(pieces)
  {
    if pieces != [] {
      var front := pieces[..|pieces| - 1];
      StraightTrackLengthIsLane0Sum(front, lane);
      var s := SectionsOf(pieces);
      assert s[..|s| - 1] == SectionsOf(front);
    }
  }

  /* ---------- the section lookup ---------- */

  /** `Locate` picks exactly the first section whose end in the lane lies beyond the distance. */
  lemma LocateIsFirstContaining(s: seq<Section>, lane: real, d: real, k: nat)
    ensures Locate(s, lane, d) == Some(k) <==>
      k < |s| && d < SectionEnd(s, k, lane) && forall j :: 0 <= j < k ==> SectionEnd(s, j, lane) <= d
  {
  }

  /** `Locate` finds nothing exactly when every section ends at or before the distance. */
  lemma LocateNoneIffPastEveryEnd(s: seq<Section>, lane: real, d: real)
    ensures Locate(s, lane, d).None? <==> forall j :: 0 <= j < |s| ==> SectionEnd(s, j, lane) <= d
  {
    var r := Locate(s, lane, d);
    if r.Some? {
      assert d < SectionEnd(s, r.value, lane);
    }
  }

  /** Any distance below a positive lane length falls in some section. */
  lemma LocateFindsBelowLength(s: seq<Section>, lane: real, d: real)
    requires d < TrackLength(s, lane) && TrackLength(s, lane) != 0.0
    ensures Locate(s, lane, d).Some?
  {
    assert |s| > 0;
    LastSectionEndsLane(s, lane);
    LocateNoneIffPastEveryEnd(s, lane, d);
  }

  /** On a well-formed track, a distance >= 0 in a lane of positive length lands in a section,
      at a local distance in [0, that section's length in the lane). */
  lemma HitInSection(s: seq<Section>, distance: real, lane: real)
    requires WellFormed(s) && lane >= 0.0 && distance >= 0.0
    requires TrackLength(s, lane) > 0.0
    ensures LocalHit(s, distance, lane).Some?
    ensures 0.0 <= LocalHit(s, distance, lane).value.localDistance
    ensures LocalHit(s, distance, lane).value.localDistance < s[LocalHit(s, distance, lane).value.index].LaneLength(lane)
  {
    var len := TrackLength(s, lane);
    RemBounds(distance, len);
    var w := Rem(distance, len).value;
    LocateFindsBelowLength(s, lane, w);
    var k := Locate(s, lane, w).value;
    if k == 0 {
      assert s[..0] == [];
    } else {
      assert SectionEnd(s, k - 1, lane) <= w;
      assert SectionEnd(s, k - 1, lane) == SectionStart(s, k, lane);
    }
  }

  /** On a well-formed track a coordinate lands in a section exactly when its lane has positive
      length, whatever the distance (a negative one included). */
  lemma HitExistsIffPositiveLength(s: seq<Section>, distance: real, lane: real)
    requires WellFormed(s) && lane >= 0.0
    ensures LocalHit(s, distance, lane).Some? <==> TrackLength(s, lane) > 0.0
  {
    var len := TrackLength(s, lane);
    TrackLengthNonnegative(s, lane);
    if len > 0.0 {
      RemBounds(distance, len);
      LocateFindsBelowLength(s, lane, Rem(distance, len).value);
    }
  }

  /* ---------- GetWorldPosition ---------- */

  /** `GetWorldPosition` takes its fallback branch (the zero position and identity rotation)
      exactly when the lane has zero length, which an empty section array gives. */
  lemma WorldPoseFallbackIffEmptyLane(s: seq<Section>, distance: real, lane: real)
    requires WellFormed(s) && lane >= 0.0 && NonzeroRadii(s, lane)
    ensures WorldPoseAt(s, distance, lane) == WorldPose(Zero, 0.0) <==> TrackLength(s, lane) == 0.0
  {
    HitExistsIffPositiveLength(s, distance, lane);
    TrackLengthNonnegative(s, lane);
  }

  /** On a well-formed track, a car at a distance >= 0 is placed in the frame of the section
      containing it, with the section's heading on a straight and at most a quarter turn
      beyond it on a curve. */
  lemma WorldPoseInContainingSection(s: seq<Section>, distance: real, lane: real)
    requires WellFormed(s) && lane >= 0.0 && distance >= 0.0 && NonzeroRadii(s, lane)
    requires TrackLength(s, lane) > 0.0
    ensures LocalHit(s, distance, lane).Some?
    ensures var section := s[LocalHit(s, distance, lane).value.index];
      var pose := WorldPoseAt(s, distance, lane);
      && pose.pos.Transformed?
      && pose.pos.yaw == section.startRotation && pose.pos.offset == section.pos
      && (section.curveRadius == 0.0 ==> pose.yaw == section.startRotation)
      && (section.curveRadius > 0.0 ==>
            section.startRotation <= pose.yaw && (pose.yaw - section.startRotation) * 2.0 < Pi)
  {
    HitInSection(s, distance, lane);
    var h := LocalHit(s, distance, lane).value;
    var section := s[h.index];
    if section.curveRadius > 0.0 {
      CurveHeadingWithinQuarterTurn(section, h.localDistance, lane);
    }
  }

  /* ---------- GetEquivalentDistance ---------- */

  /** Scaling a distance within a quarter circle of radius `r` by `rOther / r` gives a distance
      within the quarter circle of radius `rOther`. */
  lemma ScaleIntoOtherLane(local: real, r: real, rOther: real)
    requires r > 0.0 && rOther > 0.0 && 0.0 <= local && local * 2.0 < r * Pi
    ensures 0.0 <= local * rOther / r
    ensures local * rOther / r * 2.0 < rOther * Pi
  {
    var t := local / r;
    assert local == t * r;
    assert local * rOther / r == t * rOther;
    assert (Pi - t * 2.0) * r == r * Pi - local * 2.0;
    PositiveFactor(Pi - t * 2.0, r);
    NonnegativeFactor(t, r);
    assert (Pi - t * 2.0) * rOther > 0.0;
  }

  /** On a well-formed section, an offset within the section's length in one lane maps to an
      offset within its length in the other lane. */
  lemma EquivalentOffsetWithinSection(section: Section, local: real, lane: real, otherLane: real)
    requires section.curveRadius >= 0.0 && lane >= 0.0 && otherLane >= 0.0
    requires 0.0 <= local < section.LaneLength(lane)
    ensures 0.0 <= section.EquivalentOffset(local, lane, otherLane) < section.LaneLength(otherLane)
  {
    if section.curveRadius == 0.0 {
      StraightLengthLaneIndependent(section, lane, otherLane);
    } else {
      ScaleIntoOtherLane(local, section.Radius(lane), section.Radius(otherLane));
    }
  }

  /** Mapping an offset to its own lane leaves it unchanged. */
  lemma EquivalentOffsetSameLane(section: Section, local: real, lane: real)
    requires section.curveRadius != 0.0 ==> section.Radius(lane) != 0.0
    ensures section.EquivalentOffset(local, lane, lane) == local
  {
  }

  /** Mapping an offset to another lane and back gives it back. */
  lemma EquivalentOffsetRoundTrip(section: Section, local: real, lane: real, otherLane: real)
    requires section.curveRadius != 0.0 ==> section.Radius(lane) != 0.0 && section.Radius(otherLane) != 0.0
    ensures section.EquivalentOffset(section.EquivalentOffset(local, lane, otherLane), otherLane, lane) == local
  {
    if section.curveRadius != 0.0 {
      var r := section.Radius(lane);
      var rOther := section.Radius(otherLane);
      assert local * rOther / r * r / rOther == local;
    }
  }

  /** On a well-formed track, the equivalent distance of a distance >= 0 lies inside the same
      section's span in the other lane. */
  lemma EquivalentWithinSameSection(s: seq<Section>, distance: real, lane: real, otherLane: real)
    requires WellFormed(s) && lane >= 0.0 && otherLane >= 0.0 && distance >= 0.0
    requires TrackLength(s, lane) > 0.0
    ensures NonzeroRadii(s, lane)
    ensures LocalHit(s, distance, lane).Some?
    ensures var k := LocalHit(s, distance, lane).value.index;
      SectionStart(s, k, otherLane) <= EquivalentDistance(s, distance, lane, otherLane) < SectionEnd(s, k, otherLane)
  {
    WellFormedRadii(s, lane);
    HitInSection(s, distance, lane);
    var h := LocalHit(s, distance, lane).value;
    EquivalentOffsetWithinSection(s[h.index], h.localDistance, lane, otherLane);
  }

  /** Mapping a distance to its own lane gives back the wrapped distance. */
  lemma EquivalentInSameLaneIsWrap(s: seq<Section>, distance: real, lane: real)
    requires NonzeroRadii(s, lane) && TrackLength(s, lane) > 0.0
    ensures WrappedDistance(s, distance, lane).Finite?
    ensures EquivalentDistance(s, distance, lane, lane) == WrappedDistance(s, distance, lane).value
  {
    var len := TrackLength(s, lane);
    RemBounds(distance, len);
    LocateFindsBelowLength(s, lane, Rem(distance, len).value);
    var h := LocalHit(s, distance, lane).value;
    EquivalentOffsetSameLane(s[h.index], h.localDistance, lane);
  }

  /** On a well-formed track, a distance inside section k's span in a lane is found in
      section k, at its offset from the section's start: wrapping leaves it alone and no
      earlier section reaches past it. */
  lemma HitInsideSpan(s: seq<Section>, lane: real, e: real, k: nat)
    requires WellFormed(s) && lane >= 0.0 && k < |s|
    requires SectionStart(s, k, lane) <= e < SectionEnd(s, k, lane)
    ensures LocalHit(s, e, lane) == Some(Hit(k, e - SectionStart(s, k, lane)))
  {
    SectionWithinLane(s, lane, k);
    RemOfSmall(e, TrackLength(s, lane));
    forall j | 0 <= j < k
      ensures SectionEnd(s, j, lane) <= e
    {
      StartsMonotone(s, lane, j + 1, k);
      assert SectionEnd(s, j, lane) == SectionStart(s, j + 1, lane);
    }
    LocateIsFirstContaining(s, lane, e, k);
  }

  /** Mapping a distance >= 0 from one lane to another and back recovers the wrapped distance:
      both lanes agree on which section, and where in it, the car is. */
  lemma EquivalentRoundTrip(s: seq<Section>, distance: real, lane: real, otherLane: real)
    requires WellFormed(s) && lane >= 0.0 && otherLane >= 0.0 && distance >= 0.0
    requires TrackLength(s, lane) > 0.0
    ensures NonzeroRadii(s, lane) && NonzeroRadii(s, otherLane)
    ensures WrappedDistance(s, distance, lane).Finite?
    ensures EquivalentDistance(s, EquivalentDistance(s, distance, lane, otherLane), otherLane, lane)
            == WrappedDistance(s, distance, lane).value
  {
    WellFormedRadii(s, lane);
    WellFormedRadii(s, otherLane);
    EquivalentWithinSameSection(s, distance, lane, otherLane);
    var h := LocalHit(s, distance, lane).value;
    var k := h.index;
    var w := WrappedDistance(s, distance, lane).value;
    assert w == SectionStart(s, k, lane) + h.localDistance;
    var off := s[k].EquivalentOffset(h.localDistance, lane, otherLane);
    var e := EquivalentDistance(s, distance, lane, otherLane);
    assert e == SectionStart(s, k, otherLane) + off;
    HitInsideSpan(s, otherLane, e, k);
    assert LocalHit(s, e, otherLane) == Some(Hit(k, off));
    EquivalentOffsetRoundTrip(s[k], h.localDistance, lane, otherLane);
    assert EquivalentDistance(s, e, otherLane, lane) == SectionStart(s, k, lane) + s[k].EquivalentOffset(off, otherLane, lane);
  }

  /** Over a negative distance the float remainder keeps the sign: a distance in (-L, 0) wraps to
      itself, outside the [0, L) that `WrapDistance`'s documentation states. */
  lemma NegativeDistanceStaysNegative(s: seq<Section>, distance: real, lane: real)
    requires TrackLength(s, lane) > 0.0 && -TrackLength(s, lane) < distance < 0.0
    ensures WrappedDistance(s, distance, lane) == Finite(distance)
  {
    RemOfSmall(distance, TrackLength(s, lane));
  }

  /** A distance that wraps to a negative value is found in the first section, and the local
      distance passed on is that negative value, outside [0, the section's length). A distance
      in (-L, 0) is one, since it wraps to itself. */
  lemma NegativeWrapBeforeFirstSection(s: seq<Section>, distance: real, lane: real)
    requires WellFormed(s) && lane >= 0.0
    requires WrappedDistance(s, distance, lane).LessThan(0.0)
    ensures LocalHit(s, distance, lane) == Some(Hit(0, WrappedDistance(s, distance, lane).value))
    ensures LocalHit(s, distance, lane).value.localDistance < 0.0
  {
    var w := WrappedDistance(s, distance, lane).value;
    TrackLengthNonnegative(s, lane);
    RemBounds(distance, TrackLength(s, lane));
    assert |s| > 0;
    assert s[..0] == [];
    SectionLengthNonnegative(s[0], lane);
    LocateIsFirstContaining(s, lane, w, 0);
  }

  /** On a track that starts with a straight, a distance that wraps to a negative value maps to
      that value in every other lane: it is found in the straight, whose offsets are lane-free. */
  lemma NegativeWrapKeptOnFirstStraight(s: seq<Section>, distance: real, lane: real, otherLane: real)
    requires WellFormed(s) && lane >= 0.0 && NonzeroRadii(s, lane)
    requires |s| > 0 && s[0].curveRadius == 0.0
    requires WrappedDistance(s, distance, lane).LessThan(0.0)
    ensures EquivalentDistance(s, distance, lane, otherLane) == WrappedDistance(s, distance, lane).value
  {
    NegativeWrapBeforeFirstSection(s, distance, lane);
    assert s[..0] == [];
  }

  /** A straight section of lane-0 length 1 followed by a quarter curve of radius 2/π, so that
      the curve is 1 long in lane 0 and 2 long in `WideLane()`. */
  function ShiftingTrack(): seq<Section> {
    [Section(Vec3(0.0, 0.0, 0.0), 1.0, 0.0, 0.0), Section(Vec3(0.0, 0.0, 0.0), 0.0, 0.0, 2.0 / Pi)]
  }

  /** The lane whose radius on `ShiftingTrack()`'s curve is 4/π. */
  function WideLane(): real {
    2.0 / (Pi * LaneSpacing)
  }

  /** The curve of `ShiftingTrack()` is 1 long in lane 0 and 2 long in `WideLane()`. */
  lemma ShiftingCurveLengths()
    ensures WideLane() > 0.0
    ensures ShiftingTrack()[1].Radius(0.0) > 0.0 && ShiftingTrack()[1].Radius(WideLane()) > 0.0
    ensures ShiftingTrack()[1].LaneLength(0.0) == 1.0
    ensures ShiftingTrack()[1].LaneLength(WideLane()) == 2.0
  {
    var c := 2.0 / Pi;
    assert c * Pi == 2.0;
    assert WideLane() * LaneSpacing == c;
  }

  /** `ShiftingTrack()` is 3 long in `WideLane()` and 2 long in lane 0, and its straight ends at 1. */
  lemma ShiftingTrackLengths()
    ensures TrackLength(ShiftingTrack(), WideLane()) == 3.0
    ensures TrackLength(ShiftingTrack(), 0.0) == 2.0
    ensures SectionEnd(ShiftingTrack(), 0, WideLane()) == 1.0
    ensures SectionEnd(ShiftingTrack(), 0, 0.0) == 1.0
  {
    var s := ShiftingTrack();
    ShiftingCurveLengths();
    assert s[..1] == [s[0]];
    assert s[..0] == [];
    assert s[..2] == s;
  }

  /** The lane round trip fails for a negative distance: on `ShiftingTrack()` the lanes are 3 and
      2 long. The distance -2.5 in `WideLane()` wraps to itself and maps to -2.5 in lane 0.
      There it wraps by one lap to -0.5, and mapping back gives -0.5 instead of -2.5. */
  lemma NegativeDistanceRoundTripShifts()
    ensures WellFormed(ShiftingTrack()) && WideLane() > 0.0
    ensures NonzeroRadii(ShiftingTrack(), WideLane()) && NonzeroRadii(ShiftingTrack(), 0.0)
    ensures WrappedDistance(ShiftingTrack(), -2.5, WideLane()) == Finite(-2.5)
    ensures EquivalentDistance(ShiftingTrack(), -2.5, WideLane(), 0.0) == -2.5
    ensures EquivalentDistance(ShiftingTrack(), -2.5, 0.0, WideLane()) == -0.5
  {
    var s := ShiftingTrack();
    var wide := WideLane();
    ShiftingCurveLengths();
    ShiftingTrackLengths();
    RemOfSmall(-2.5, 3.0);
    assert WrappedDistance(s, -2.5, wide) == Finite(-2.5);
    assert Trunc(-2.5 / 2.0) == -1;
    assert WrappedDistance(s, -2.5, 0.0) == Finite(-0.5);
    NegativeWrapKeptOnFirstStraight(s, -2.5, wide, 0.0);
    NegativeWrapKeptOnFirstStraight(s, -2.5, 0.0, wide);
  }
}
