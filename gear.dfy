/**
 * The Gear object of gear.cpp / gear.hpp: its stored parameters and the
 * three growable arrays (vertices, normals, indices) that the constructor
 * fills by calling GenerateGeometry once.
 *
 * The float parameters are modelled as reals; they are only stored.
 * The C++ `int` arithmetic of generateGeometry is modelled with a 32-bit
 * signed newtype, so every intermediate value is checked to fit.
 */
module Gears {
  import opened GearMesh

  /** C++ `int`. */
  newtype int32 = x: int | -0x8000_0000 <= x < 0x8000_0000

  /** Tooth counts for which generateGeometry's `int` arithmetic does not
      overflow: `teethCount * 2` needs teethCount >= -2^30, and the largest
      index, `idx + 3 == 2 * segments + 1`, needs teethCount <= 2^29 - 1. */
  predicate NoOverflow(teethCount: int)
  {
    -0x4000_0000 <= teethCount <= 0x1fff_ffff
  }

  class Gear {
    var outerRadius: real
    var innerRadius: real
    var teethCount: int32
    var rpm: real
    var angleDeg: real

    var vertices: seq<Vertex>
    var normals: seq<Normal>
    var indices: seq<nat>

    /** The mesh invariant: one normal per vertex, whole triangles, every
        index names an existing vertex. */
    ghost predicate Valid()
      reads this
    {
      WellFormed(vertices, normals, indices)
    }

    /** Stores the parameters, starts at angle 0 with empty arrays, and
        generates the band mesh. */
    constructor (outerRadius_: real, innerRadius_: real, teethCount_: int32, rpm_: real)
      requires NoOverflow(teethCount_ as int)
      ensures outerRadius == outerRadius_ && innerRadius == innerRadius_
      ensures teethCount == teethCount_ && rpm == rpm_ && angleDeg == 0.0
      ensures vertices == RingVertices(SampleCount(Segments(teethCount_ as int)))
      ensures normals == RingNormals(SampleCount(Segments(teethCount_ as int)))
      ensures indices == BandIndices(SegmentCount(Segments(teethCount_ as int)))
      ensures Valid()
      ensures teethCount_ >= 0 ==>
        IsRing(vertices, Segments(teethCount_ as int) + 1) && IsStrip(indices, Segments(teethCount_ as int))
    {
      outerRadius := outerRadius_;
      innerRadius := innerRadius_;
      teethCount := teethCount_;
      rpm := rpm_;
      angleDeg := 0.0;
      vertices, normals, indices := [], [], [];
      new;
      GenerateGeometry();
      GeneratedMeshWellFormed(Segments(teethCount_ as int));
    }

    /** Appends the band mesh for 2 * teethCount segments: first each
        sample's top and bottom vertex with its radial normal, then two
        triangles per segment. The indices start at 0, so they describe the
        new vertices only when the arrays were empty before. */
    method GenerateGeometry()
      requires NoOverflow(teethCount as int)
      modifies this`vertices, this`normals, this`indices
      ensures vertices == old(vertices) + RingVertices(SampleCount(Segments(teethCount as int)))
      ensures normals == old(normals) + RingNormals(SampleCount(Segments(teethCount as int)))
      ensures indices == old(indices) + BandIndices(SegmentCount(Segments(teethCount as int)))
    {
      var segments: int32 := teethCount * 2;

      var i: int32 := 0;
      while i <= segments
        invariant 0 <= i as int <= SampleCount(segments as int)
        invariant vertices == old(vertices) + RingVertices(i as int)
        invariant normals == old(normals) + RingNormals(i as int)
        modifies this`vertices, this`normals
        decreases segments as int - i as int
      {
        vertices := vertices + [Vertex(i as int, Top)];
        normals := normals + [Radial(i as int)];
        vertices := vertices + [Vertex(i as int, Bottom)];
        normals := normals + [Radial(i as int)];
        assert RingVertices(i as int + 1) == RingVertices(i as int) + [Vertex(i as int, Top), Vertex(i as int, Bottom)];
        assert RingNormals(i as int + 1) == RingNormals(i as int) + [Radial(i as int), Radial(i as int)];
        i := i + 1;
      }

      i := 0;
      while i < segments
        invariant 0 <= i as int <= SegmentCount(segments as int)
        invariant indices == old(indices) + BandIndices(i as int)
        modifies this`indices
        decreases segments as int - i as int
      {
        var idx: int32 := i * 2;
        // the int values are converted to GLuint; they are never negative
        var v0: nat, v1: nat, v2: nat, v3: nat := idx as int, (idx + 1) as int, (idx + 2) as int, (idx + 3) as int;
        indices := indices + [v0];
        indices := indices + [v2];
        indices := indices + [v1];

        indices := indices + [v1];
        indices := indices + [v2];
        indices := indices + [v3];
        assert BandIndices(i as int + 1) == BandIndices(i as int) + QuadIndices(i as int);
        i := i + 1;
      }
    }
  }
}
