/**
 * The side band of a gear, as Gear::generateGeometry builds it: two rings
 * of vertices (one at +depth, one at -depth along the rotation axis) joined
 * by two triangles per angular segment.
 *
 * A vertex is modelled by which angular sample it belongs to and which ring
 * it lies on; its float position (midRadius * cos, midRadius * sin, +/-depth)
 * is not modelled. A normal is modelled by the sample whose radial direction
 * (cos, sin, 0) it is.
 *
 * This module gives the specification functions (what the two loops of
 * generateGeometry emit after a number of iterations) and the lemmas about
 * the mesh they produce.
 */
module GearMesh {

  /** The two rings of the band: Top at z = +depth, Bottom at z = -depth. */
  datatype Ring = Top | Bottom

  /** A vertex: angular sample `sample` on ring `ring`. */
  datatype Vertex = Vertex(sample: nat, ring: Ring)

  /** A normal: the outward radial direction of angular sample `sample`. */
  datatype Normal = Radial(sample: nat)

  /** Three consecutive entries of an index buffer, in winding order. */
  datatype Triangle = Triangle(a: nat, b: nat, c: nat)

  /** Number of angular segments of a gear: two per tooth. */
  function Segments(teethCount: int): int
  {
    2 * teethCount
  }

  /** Iterations of the vertex loop `for (i = 0; i <= segments; ++i)`. */
  function SampleCount(segments: int): nat
  {
    if segments < 0 then 0 else segments + 1
  }

  /** Iterations of the index loop `for (i = 0; i < segments; ++i)`. */
  function SegmentCount(segments: int): nat
  {
    if segments < 0 then 0 else segments
  }

  // ---------------------------------------------------------------------
  // What the loops emit
  // ---------------------------------------------------------------------

  /** Vertices appended by the first n iterations of the vertex loop:
      each iteration appends the top-ring vertex, then the bottom-ring one. */
  function RingVertices(n: nat): seq<Vertex>
  {
    if n == 0 then []
    else RingVertices(n - 1) + [Vertex(n - 1, Top), Vertex(n - 1, Bottom)]
  }

  /** Normals appended by the first n iterations of the vertex loop:
      the same radial normal once for each of the two vertices. */
  function RingNormals(n: nat): seq<Normal>
  {
    if n == 0 then []
    else RingNormals(n - 1) + [Radial(n - 1), Radial(n - 1)]
  }

  /** The six indices appended for segment i (idx = 2 * i). */
  function QuadIndices(i: nat): seq<nat>
  {
    [2 * i, 2 * i + 2, 2 * i + 1, 2 * i + 1, 2 * i + 2, 2 * i + 3]
  }

  /** Indices appended by the first m iterations of the index loop. */
  function BandIndices(m: nat): seq<nat>
  {
    if m == 0 then [] else BandIndices(m - 1) + QuadIndices(m - 1)
  }

  // ---------------------------------------------------------------------
  // Reference descriptions of the mesh, independent of the loops
  // ---------------------------------------------------------------------

  /** The k-th vertex of the band: even positions on the top ring, odd on
      the bottom ring, two per sample. */
  function SampleVertex(k: nat): Vertex
  {
    Vertex(k / 2, if k % 2 == 0 then Top else Bottom)
  }

  /** The t-th triangle of the band: the even one of segment i runs
      top i -> top i+1 -> bottom i, the odd one bottom i -> top i+1 -> bottom i+1. */
  function StripTriangle(t: nat): Triangle
  {
    var i := t / 2;
    if t % 2 == 0 then Triangle(2 * i, 2 * i + 2, 2 * i + 1)
    else Triangle(2 * i + 1, 2 * i + 2, 2 * i + 3)
  }

  /** Triangle number t of an index buffer. */
  function TriangleAt(indices: seq<nat>, t: nat): Triangle
    requires 3 * t + 3 <= |indices|
  {
    Triangle(indices[3 * t], indices[3 * t + 1], indices[3 * t + 2])
  }

  function Corners(tri: Triangle): set<nat>
  {
    {tri.a, tri.b, tri.c}
  }

  /** The triangle traverses the directed edge u -> v in its winding order. */
  predicate HasEdge(tri: Triangle, u: nat, v: nat)
  {
    (tri.a == u && tri.b == v) || (tri.b == u && tri.c == v) || (tri.c == u && tri.a == v)
  }

  predicate NonDegenerate(tri: Triangle)
  {
    tri.a != tri.b && tri.b != tri.c && tri.a != tri.c
  }

  /** Two triangles are consistently wound across a shared edge when y
      traverses one of x's edges in the opposite direction. */
  predicate Opposing(x: Triangle, y: Triangle)
  {
    HasEdge(y, x.b, x.a) || HasEdge(y, x.c, x.b) || HasEdge(y, x.a, x.c)
  }

  /** The invariant of a mesh: one normal per vertex, whole triangles, and
      every index names an existing vertex. */
  predicate WellFormed(vertices: seq<Vertex>, normals: seq<Normal>, indices: seq<nat>)
  {
    |normals| == |vertices| &&
    |indices| % 3 == 0 &&
    forall k :: 0 <= k < |indices| ==> indices[k] < |vertices|
  }

  /** `indices` is the index buffer of a strip of m segments: 2m triangles,
      triangle t being StripTriangle(t). */
  predicate IsStrip(indices: seq<nat>, m: nat)
  {
    |indices| == 6 * m &&
    forall t :: 0 <= t < 2 * m ==> TriangleAt(indices, t) == StripTriangle(t)
  }

  /** `vertices` holds the two rings of n samples, vertex k being SampleVertex(k). */
  predicate IsRing(vertices: seq<Vertex>, n: nat)
  {
    |vertices| == 2 * n &&
    forall k :: 0 <= k < |vertices| ==> vertices[k] == SampleVertex(k)
  }

  // ---------------------------------------------------------------------
  // Vertices and normals
  // ---------------------------------------------------------------------

  /** Each vertex-loop iteration adds two vertices, and vertex k is sample
      k / 2 on the top ring when k is even, on the bottom ring when odd. */
  lemma {:induction false} RingVerticesLayout(n: nat)
    ensures |RingVertices(n)| == 2 * n
    ensures IsRing(RingVertices(n), n)
  {
    if n > 0 {
      RingVerticesLayout(n - 1);
      var prev := RingVertices(n - 1);
      forall k | 0 <= k < 2 * n
        ensures RingVertices(n)[k] == SampleVertex(k)
      {
        if k < 2 * n - 2 {
          assert RingVertices(n)[k] == prev[k];
        }
      }
    }
  }

  /** Normal k is the radial direction of sample k / 2. */
  lemma {:induction false} RingNormalsLayout(n: nat)
    ensures |RingNormals(n)| == 2 * n
    ensures forall k :: 0 <= k < |RingNormals(n)| ==> RingNormals(n)[k] == Radial(k / 2)
  {
    if n > 0 {
      RingNormalsLayout(n - 1);
      var prev := RingNormals(n - 1);
      forall k | 0 <= k < 2 * n
        ensures RingNormals(n)[k] == Radial(k / 2)
      {
        if k < 2 * n - 2 {
          assert RingNormals(n)[k] == prev[k];
        }
      }
    }
  }

  /** Vertex 2i is top-ring sample i and vertex 2i+1 bottom-ring sample i;
      both carry the radial normal of sample i. */
  lemma SamplePair(n: nat, i: nat)
    requires i < n
    ensures 2 * i + 1 < |RingVertices(n)| == |RingNormals(n)|
    ensures RingVertices(n)[2 * i] == Vertex(i, Top)
    ensures RingVertices(n)[2 * i + 1] == Vertex(i, Bottom)
    ensures RingNormals(n)[2 * i] == RingNormals(n)[2 * i + 1] == Radial(i)
  {
    RingVerticesLayout(n);
    RingNormalsLayout(n);
    assert SampleVertex(2 * i) == Vertex(i, Top);
    assert SampleVertex(2 * i + 1) == Vertex(i, Bottom);
  }

  /** Every vertex's normal is the radial direction of the vertex's own sample. */
  lemma {:induction false} NormalsFollowVertices(n: nat)
    ensures |RingNormals(n)| == |RingVertices(n)|
    ensures forall k :: 0 <= k < |RingVertices(n)| ==> RingNormals(n)[k].sample == RingVertices(n)[k].sample
  {
    RingVerticesLayout(n);
    RingNormalsLayout(n);
  }

  // ---------------------------------------------------------------------
  // Indices and triangles
  // ---------------------------------------------------------------------

  /** Each index-loop iteration adds six indices, and triangle t of the
      buffer is StripTriangle(t): the index loop emits a strip. */
  lemma {:induction false} BandTriangles(m: nat)
    ensures |BandIndices(m)| == 6 * m
    ensures IsStrip(BandIndices(m), m)
  {
    if m > 0 {
      BandTriangles(m - 1);
      var prev, quad := BandIndices(m - 1), QuadIndices(m - 1);
      assert BandIndices(m) == prev + quad;
      forall t | 0 <= t < 2 * m
        ensures TriangleAt(BandIndices(m), t) == StripTriangle(t)
      {
        if t < 2 * m - 2 {
          assert TriangleAt(BandIndices(m), t) == TriangleAt(prev, t);
        } else if t == 2 * m - 2 {
          assert TriangleAt(BandIndices(m), t) == Triangle(quad[0], quad[1], quad[2]);
        } else {
          assert TriangleAt(BandIndices(m), t) == Triangle(quad[3], quad[4], quad[5]);
        }
      }
    }
  }

  /** Index k of a buffer of whole triangles is a corner of triangle k / 3. */
  lemma IndexInTriangle(indices: seq<nat>, k: nat)
    requires |indices| % 3 == 0 && k < |indices|
    ensures 3 * (k / 3) + 3 <= |indices|
    ensures indices[k] in Corners(TriangleAt(indices, k / 3))
  {
  }

  /** Every index of a strip of m segments is at most 2m+1, so it names one
      of the 2(m+1) vertices of the m+1 samples; the last index reaches the
      bound. */
  lemma StripIndicesInRange(indices: seq<nat>, m: nat)
    requires IsStrip(indices, m)
    ensures forall k :: 0 <= k < |indices| ==> indices[k] < 2 * (m + 1)
    ensures m > 0 ==> indices[|indices| - 1] == 2 * m + 1
  {
    forall k | 0 <= k < |indices|
      ensures indices[k] < 2 * (m + 1)
    {
      IndexInTriangle(indices, k);
      assert TriangleAt(indices, k / 3) == StripTriangle(k / 3);
    }
    if m > 0 {
      assert TriangleAt(indices, 2 * m - 1) == StripTriangle(2 * m - 1);
    }
  }

  /** A strip of at least one segment uses every one of its 2(m+1) vertices. */
  lemma StripCoversVertices(indices: seq<nat>, m: nat)
    requires IsStrip(indices, m) && m > 0
    ensures forall v :: 0 <= v < 2 * (m + 1) ==> v in indices
  {
    forall v | 0 <= v < 2 * (m + 1)
      ensures v in indices
    {
      var i := v / 2;
      if i < m {
        // v is 2i or 2i+1, the first or third index of segment i
        assert TriangleAt(indices, 2 * i) == StripTriangle(2 * i);
        assert indices[6 * i] == 2 * i && indices[6 * i + 2] == 2 * i + 1;
      } else {
        // v is 2m or 2m+1, the last two indices of segment m-1
        assert TriangleAt(indices, 2 * m - 1) == StripTriangle(2 * m - 1);
        assert indices[6 * m - 2] == 2 * m && indices[6 * m - 1] == 2 * m + 1;
      }
    }
  }

  /** No triangle of a strip repeats a vertex. */
  lemma StripNonDegenerate(indices: seq<nat>, m: nat)
    requires IsStrip(indices, m)
    ensures forall t :: 0 <= t < 2 * m ==> NonDegenerate(TriangleAt(indices, t))
  {
    forall t | 0 <= t < 2 * m
      ensures NonDegenerate(TriangleAt(indices, t))
    {
      assert TriangleAt(indices, t) == StripTriangle(t);
    }
  }

  /** The two triangles of segment i split its quad along the same diagonal
      {2i+1, 2i+2}: together they cover the quad's four corners, they share
      exactly the diagonal, and they traverse it in opposite directions. */
  lemma StripSharedDiagonal(indices: seq<nat>, m: nat, i: nat)
    requires IsStrip(indices, m) && i < m
    ensures 6 * i + 6 <= |indices|
    ensures Corners(TriangleAt(indices, 2 * i)) * Corners(TriangleAt(indices, 2 * i + 1))
         == {2 * i + 1, 2 * i + 2}
    ensures Corners(TriangleAt(indices, 2 * i)) + Corners(TriangleAt(indices, 2 * i + 1))
         == {2 * i, 2 * i + 1, 2 * i + 2, 2 * i + 3}
    ensures HasEdge(TriangleAt(indices, 2 * i), 2 * i + 2, 2 * i + 1)
    ensures HasEdge(TriangleAt(indices, 2 * i + 1), 2 * i + 1, 2 * i + 2)
  {
    assert TriangleAt(indices, 2 * i) == StripTriangle(2 * i) == Triangle(2 * i, 2 * i + 2, 2 * i + 1);
    assert TriangleAt(indices, 2 * i + 1) == StripTriangle(2 * i + 1) == Triangle(2 * i + 1, 2 * i + 2, 2 * i + 3);
  }

  /** Neighbouring triangles of a strip (within a quad and across the
      boundary between quads) share an edge traversed in opposite
      directions, so the whole band has one orientation. */
  lemma StripConsistentlyWound(indices: seq<nat>, m: nat)
    requires IsStrip(indices, m)
    ensures forall t :: 0 <= t && t + 1 < 2 * m ==>
      Opposing(TriangleAt(indices, t), TriangleAt(indices, t + 1))
  {
    forall t | 0 <= t && t + 1 < 2 * m
      ensures Opposing(TriangleAt(indices, t), TriangleAt(indices, t + 1))
    {
      assert TriangleAt(indices, t) == StripTriangle(t);
      assert TriangleAt(indices, t + 1) == StripTriangle(t + 1);
    }
  }

  /** Triangle t of a strip over the rings of m+1 samples lies in the quad
      between samples t/2 and t/2+1, uses both, and touches both rings. */
  lemma TriangleSpansQuad(vertices: seq<Vertex>, indices: seq<nat>, m: nat, t: nat)
    requires IsRing(vertices, m + 1) && IsStrip(indices, m) && t < 2 * m
    ensures 3 * t + 3 <= |indices|
    ensures var tri := TriangleAt(indices, t);
      tri.a < |vertices| && tri.b < |vertices| && tri.c < |vertices| &&
      {vertices[tri.a].sample, vertices[tri.b].sample, vertices[tri.c].sample} == {t / 2, t / 2 + 1} &&
      {vertices[tri.a].ring, vertices[tri.b].ring, vertices[tri.c].ring} == {Top, Bottom}
  {
    var tri := TriangleAt(indices, t);
    var i := t / 2;
    assert tri == StripTriangle(t);
    if t % 2 == 0 {
      assert vertices[tri.a] == Vertex(i, Top) && vertices[tri.b] == Vertex(i + 1, Top) && vertices[tri.c] == Vertex(i, Bottom);
    } else {
      assert vertices[tri.a] == Vertex(i, Bottom) && vertices[tri.b] == Vertex(i + 1, Top) && vertices[tri.c] == Vertex(i + 1, Bottom);
    }
  }

  // ---------------------------------------------------------------------
  // The whole mesh
  // ---------------------------------------------------------------------

  /** The mesh built for any segment count satisfies the mesh invariant;
      with segments >= 0 its vertices form the rings of segments + 1 samples
      and its indices a strip of segments segments over them. */
  lemma GeneratedMeshWellFormed(segments: int)
    ensures WellFormed(RingVertices(SampleCount(segments)), RingNormals(SampleCount(segments)),
                       BandIndices(SegmentCount(segments)))
    ensures segments >= 0 ==>
      IsRing(RingVertices(SampleCount(segments)), SegmentCount(segments) + 1) &&
      IsStrip(BandIndices(SegmentCount(segments)), SegmentCount(segments))
  {
    if segments >= 0 {
      BandWellFormed(segments);
    } else {
      assert RingVertices(0) == [] && RingNormals(0) == [] && BandIndices(0) == [];
    }
  }

  /** The mesh invariant for m >= 0 segments, that is m + 1 samples. */
  lemma BandWellFormed(m: nat)
    ensures WellFormed(RingVertices(m + 1), RingNormals(m + 1), BandIndices(m))
    ensures IsRing(RingVertices(m + 1), m + 1) && IsStrip(BandIndices(m), m)
  {
    var vs, ns, ix := RingVertices(m + 1), RingNormals(m + 1), BandIndices(m);
    RingVerticesLayout(m + 1);
    RingNormalsLayout(m + 1);
    BandTriangles(m);
    StripIndicesInRange(ix, m);
    assert |ix| == 3 * (2 * m);
  }

  /** For a non-negative tooth count: 2(segments+1) vertices and normals,
      6 * segments indices, that is 2 * segments triangles. */
  lemma MeshSizes(teethCount: int)
    requires teethCount >= 0
    ensures var segments := Segments(teethCount);
      segments == 2 * teethCount &&
      |RingVertices(SampleCount(segments))| == |RingNormals(SampleCount(segments))| == 2 * (segments + 1) &&
      |BandIndices(SegmentCount(segments))| == 6 * segments
  {
    var segments := Segments(teethCount);
    RingVerticesLayout(SampleCount(segments));
    RingNormalsLayout(SampleCount(segments));
    BandTriangles(SegmentCount(segments));
  }
}
