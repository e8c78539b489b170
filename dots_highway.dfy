/** `DotsHighway`: the highway's sections in a fixed-size array, the two cached lengths,
    and the lookups that place a car given its lane and its distance along that lane. */
module HighwayRacers {
  import opened FloatMath
  import opened Track
  import opened TrackLemmas

  class DotsHighway {
    var sections: array<Section>
    /** Cached length of the outermost lane, recomputed by every `Create`. */
    var lastLaneLength: real
    /** Running total of the pieces' lane-0 lengths; `Create` adds to it and nothing resets it. */
    var lane0Length: real

    /** The default value of the struct: no sections and both lengths 0. */
    constructor ()
      ensures sections.Length == 0 && lastLaneLength == 0.0 && lane0Length == 0.0
    {
      sections := new Section[0];
      lastLaneLength := 0.0;
      lane0Length := 0.0;
    }

    /** Replaces the sections by one per piece, adds the pieces' lane-0 lengths to
        `lane0Length`, and recomputes the length of the outermost lane. */
    method Create(pieces: seq<HighwayPiece>)
      modifies this
      ensures fresh(sections)
      ensures sections[..] == SectionsOf(pieces)
      ensures lane0Length == old(lane0Length) + Lane0Sum(pieces)
      ensures lastLaneLength == TrackLength(sections[..], LastLane())
    {
      sections := new Section[|pieces|];
      ghost var created := sections;
      for i := 0 to |pieces|
        invariant sections == created && fresh(sections) && sections.Length == |pieces|
        invariant sections[..i] == SectionsOf(pieces[..i])
        invariant lane0Length == old(lane0Length) + Lane0Sum(pieces[..i])
      {
        sections[i] := ToSection(pieces[i]);
        lane0Length := lane0Length + pieces[i].length0;
        assert pieces[..i + 1][..i] == pieces[..i];
        assert sections[..i + 1] == sections[..i] + [sections[i]];
      }
      assert pieces[..|pieces|] == pieces;
      assert sections[..] == sections[..sections.Length];
      lastLaneLength := 0.0;
      for s := 0 to sections.Length
        modifies this`lastLaneLength
        invariant lastLaneLength == TrackLength(sections[..s], LastLane())
      {
        lastLaneLength := lastLaneLength + sections[s].LaneLength(LastLane());
        assert sections[..s + 1][..s] == sections[..s];
      }
      assert sections[..sections.Length] == sections[..];
    }

    /** The length of `lane`: the sum of every section's length in it, 0 without sections. */
    method LaneLength(lane: real) returns (len: real)
      ensures len == TrackLength(sections[..], lane)
    {
      len := 0.0;
      for i := 0 to sections.Length
        invariant len == TrackLength(sections[..i], lane)
      {
        len := len + sections[i].LaneLength(lane);
        assert sections[..i + 1][..i] == sections[..i];
      }
      assert sections[..sections.Length] == sections[..];
    }

    /** `distance % LaneLength(lane)` with the float remainder: for a distance >= 0 and a lane of
        positive length, the one value in [0, length) that differs from the distance by a
        whole number of laps; wrapping it again changes nothing; NaN for a lane of length 0. */
    method WrapDistance(distance: real, lane: real) returns (w: Float)
      ensures w == WrappedDistance(sections[..], distance, lane)
      ensures w.NaN? <==> TrackLength(sections[..], lane) == 0.0
      ensures w.Finite? ==> IsMultiple(distance - w.value, TrackLength(sections[..], lane))
      ensures w.Finite? ==> WrappedDistance(sections[..], w.value, lane) == w
      ensures distance >= 0.0 && TrackLength(sections[..], lane) > 0.0 ==>
        w.Finite? && 0.0 <= w.value < TrackLength(sections[..], lane)
    {
      var len := LaneLength(lane);
      w := Rem(distance, len);
      if len != 0.0 {
        RemBounds(distance, len);
        RemIdempotent(distance, len);
      }
    }

    /** The car's world position and heading: the section containing the wrapped distance
        places it; the zero position and identity rotation when none does. */
    method GetWorldPosition(distance: real, lane: real) returns (pose: WorldPose)
      requires NonzeroRadii(sections[..], lane)
      ensures pose == WorldPoseAt(sections[..], distance, lane)
    {
      ghost var s := sections[..];
      var d := WrapDistance(distance, lane);
      var pieceStartDistance := 0.0;
      var pieceEndDistance := 0.0;
      for i := 0 to sections.Length
        invariant pieceEndDistance == SectionStart(s, i, lane)
        invariant d.Finite? ==> forall j :: 0 <= j < i ==> SectionEnd(s, j, lane) <= d.value
      {
        var section := sections[i];
        pieceStartDistance := pieceEndDistance;
        pieceEndDistance := pieceEndDistance + section.LaneLength(lane);
        assert pieceEndDistance == SectionEnd(s, i, lane);
        if d.LessThan(pieceEndDistance) {
          LocateIsFirstContaining(s, lane, d.value, i);
          var local := section.LocalPosition(d.value - pieceStartDistance, lane);
          pose := WorldPose(Transformed(section.startRotation, local.point, section.pos), local.rotY + section.startRotation);
          return;
        }
      }
      if d.Finite? {
        LocateNoneIffPastEveryEnd(s, lane, d.value);
      }
      pose := WorldPose(Zero, 0.0);
    }

    /** The distance in `otherLane` at the same place as `distance` in `lane`: the same offset
        into the containing section on a straight, the offset scaled by the ratio of the
        lane radii on a curve; 0 when no section contains the wrapped distance. */
    method GetEquivalentDistance(distance: real, lane: real, otherLane: real) returns (r: real)
      requires NonzeroRadii(sections[..], lane)
      ensures r == EquivalentDistance(sections[..], distance, lane, otherLane)
    {
      ghost var s := sections[..];
      var d := WrapDistance(distance, lane);
      var pieceStartDistance := 0.0;
      var pieceEndDistance := 0.0;
      var pieceStartDistanceOtherLane := 0.0;
      var pieceEndDistanceOtherLane := 0.0;
      for i := 0 to sections.Length
        invariant pieceEndDistance == SectionStart(s, i, lane)
        invariant pieceEndDistanceOtherLane == SectionStart(s, i, otherLane)
        invariant d.Finite? ==> forall j :: 0 <= j < i ==> SectionEnd(s, j, lane) <= d.value
      {
        var section := sections[i];
        pieceStartDistance := pieceEndDistance;
        pieceStartDistanceOtherLane := pieceEndDistanceOtherLane;
        pieceEndDistance := pieceEndDistance + section.LaneLength(lane);
        pieceEndDistanceOtherLane := pieceEndDistanceOtherLane + section.LaneLength(otherLane);
        assert pieceEndDistance == SectionEnd(s, i, lane);
        assert pieceEndDistanceOtherLane == SectionEnd(s, i, otherLane);
        if d.LessThan(pieceEndDistance) {
          LocateIsFirstContaining(s, lane, d.value, i);
          assert LocalHit(s, distance, lane) == Some(Hit(i, d.value - pieceStartDistance));
          return pieceStartDistanceOtherLane + section.EquivalentOffset(d.value - pieceStartDistance, lane, otherLane);
        }
      }
      if d.Finite? {
        LocateNoneIffPastEveryEnd(s, lane, d.value);
      }
      assert LocalHit(s, distance, lane).None?;
      return 0.0;
    }
  }

  /** Calling `Create` twice with the same pieces on a fresh highway leaves `lane0Length` at
      twice the pieces' lane-0 total, because nothing resets it; for straight pieces the
      lane-0 length of the track itself is that total once. */
  method CreateTwice(pieces: seq<HighwayPiece>) returns (lane0Length: real, trackLength: real)
    ensures lane0Length == 2.0 * Lane0Sum(pieces)
    ensures (forall i :: 0 <= i < |pieces| ==> pieces[i].curveRadiusLane0 <= 0.0) ==>
      trackLength == Lane0Sum(pieces)
  {
    var highway := new DotsHighway();
    highway.Create(pieces);
    highway.Create(pieces);
    lane0Length := highway.lane0Length;
    trackLength := highway.LaneLength(0.0);
    if forall i :: 0 <= i < |pieces| ==> pieces[i].curveRadiusLane0 <= 0.0 {
      StraightTrackLengthIsLane0Sum(pieces, 0.0);
    }
  }
}
