# Gear band mesh

A Dafny model of the procedural mesh builder of a small OpenGL clock scene:
the `Gear` object and the geometry it generates when it is constructed.

A `Gear` stores its outer radius, inner radius, tooth count and speed
(revolutions per minute), starts at rotation angle 0, and fills three
growable arrays — `vertices`, `normals`, `indices` — by one call to
`generateGeometry`. That routine approximates the gear as an open cylindrical
band with `segments = 2 * teethCount` angular segments:

- the vertex loop visits `segments + 1` angular samples and appends, for each,
  a top-ring vertex (`z = +depth`) and a bottom-ring vertex (`z = -depth`),
  each with the sample's radial normal;
- the index loop appends two triangles per segment, `(2i, 2i+2, 2i+1)` and
  `(2i+1, 2i+2, 2i+3)`.

No teeth are generated: the class comment in `gear.hpp` announces a torus with
box-shaped teeth, but the code builds the band only and marks the teeth as
skipped. The model follows the code.

Files:

- `gear_mesh.dfy`, module `GearMesh`: the abstract vertex (`Vertex(sample, ring)`),
  the normal (`Radial(sample)`), what the loops emit after a number of
  iterations (`RingVertices`, `RingNormals`, `BandIndices`), reference
  descriptions independent of the loops (`SampleVertex`, `StripTriangle`), the
  mesh invariant `WellFormed`, and the lemmas about the generated mesh. The
  triangle lemmas are stated for any index buffer that is a strip (`IsStrip`);
  `BandTriangles` shows that the index loop emits one.
- `gear.dfy`, module `Gears`: the class `Gear` with the source's fields, its
  constructor and `GenerateGeometry`, a method with the two loops of the
  source, proved against the `GearMesh` functions. The C++ `int` arithmetic is
  done in a 32-bit signed newtype, so every intermediate value is checked to fit.

On inputs the code does not check, the model follows the code:

- The code does not check the tooth count; the model covers every tooth count
  whose `int` arithmetic does not overflow (`NoOverflow`). With zero teeth the
  float angle is `0/0`, which under IEEE 754 floats is NaN (NaN coordinates,
  not a crash), and the model gives 2 vertices and no indices; with a negative
  count both loops run zero times and the mesh is empty.
- `generateGeometry` appends to the arrays. Its indices start at 0, so they
  describe the new vertices only because the constructor starts from empty
  arrays; `GenerateGeometry`'s contract states the append.

## Model

| member | source | states |
|---|---|---|
| `Gears.Gear.constructor` | gear.cpp:4-8 | the four parameters are stored unchanged, the angle starts at 0, and the arrays hold exactly the band mesh of `2 * teethCount` segments (nothing else), which satisfies the mesh invariant `Valid()`; for a non-negative tooth count the vertices are the two rings (`IsRing`) and the indices a strip over them (`IsStrip`) |
| `Gears.Gear.GenerateGeometry` | gear.cpp:17-49 | appends to `vertices`, `normals` and `indices` exactly what the vertex and index loops emit for `segments = 2 * teethCount`, touching no other field; no 32-bit `int` intermediate overflows when the tooth count satisfies `NoOverflow` |
| `GearMesh.RingVerticesLayout` | gear.cpp:24-34 | n vertex-loop iterations give 2n vertices forming the two rings (`IsRing`): vertex k is angular sample k/2 on the top ring when k is even and on the bottom ring when k is odd |
| `GearMesh.RingNormalsLayout` | gear.cpp:24-34 | n iterations give 2n normals, and normal k is the radial direction of sample k/2 |
| `GearMesh.SamplePair` | gear.cpp:28-33 | vertex 2i is top-ring sample i, vertex 2i+1 is bottom-ring sample i, and both carry the same normal, that of sample i |
| `GearMesh.NormalsFollowVertices` | gear.cpp:24-34 | there are as many normals as vertices and every vertex's normal is the radial direction of that vertex's own sample |
| `GearMesh.BandTriangles` | gear.cpp:36-46 | m index-loop iterations give 6m indices forming a strip (`IsStrip`): triangle t is `(2i, 2i+2, 2i+1)` for even t and `(2i+1, 2i+2, 2i+3)` for odd t, with i = t/2 |
| `GearMesh.StripIndicesInRange` | gear.cpp:37-45 | every index of a strip of m segments is below 2(m+1), the vertex count of the m+1 samples, and the last index is the largest possible one, 2m+1 |
| `GearMesh.StripCoversVertices` | gear.cpp:36-46 | a strip of at least one segment uses every one of the 2(m+1) vertices |
| `GearMesh.StripNonDegenerate` | gear.cpp:39-45 | every triangle of a strip has three pairwise distinct indices |
| `GearMesh.StripSharedDiagonal` | gear.cpp:37-45 | the two triangles of segment i share exactly the diagonal {2i+1, 2i+2}, together cover the quad's four corners 2i..2i+3, and traverse the diagonal in opposite directions |
| `GearMesh.StripConsistentlyWound` | gear.cpp:36-46 | any two neighbouring triangles of a strip, inside a quad or across two quads, share an edge traversed in opposite directions, so the band has one consistent winding |
| `GearMesh.TriangleSpansQuad` | gear.cpp:24-46 | over the rings of m+1 samples, the corners of strip triangle t are vertices of samples t/2 and t/2+1 only, both samples occur, and the triangle touches both the top and the bottom ring |
| `GearMesh.GeneratedMeshWellFormed` | gear.cpp:17-49 | for every segment count the generated mesh has one normal per vertex, an index count divisible by 3, and every index below the vertex count; for a non-negative count its vertices are the two rings (`IsRing`) and its indices a strip over them (`IsStrip`), so the strip lemmas apply to it |
| `GearMesh.MeshSizes` | gear.cpp:19-46 | for a non-negative tooth count, segments is twice the tooth count, there are 2(segments+1) vertices and as many normals, and 6 * segments indices |

## Left out

- Vertex coordinates: the float positions (`midRadius * cos`, `midRadius * sin`, `+/-depth`) and normal components (`cos`, `sin`, 0) are floating-point trigonometry; a vertex is modelled only by its sample and ring, a normal only by its sample. The last sample (angle 2*pi) therefore is a distinct sample here, although in floats its position coincides with that of sample 0 up to float rounding.
- `depth` and `midRadius` (gear.cpp:20-21): float values used only for the coordinates above.
- `Gear::setupBuffers`, `Gear::draw` and the destructor: they upload the arrays to, draw them with, and release buffers of the OpenGL library, which is not part of this model; the buffer handles `vao`, `vbo`, `nbo`, `ebo` are left out with them.
- `Gear::update`: float angle accumulation. It wraps only when the angle reaches 360 and never wraps a negative angle (the second gear turns at -5 revolutions per minute); not modelled because it is floating-point arithmetic.
- Memory exhaustion of the growing vectors is not modelled.
- Tooth counts outside [-2^30, 2^29-1] are excluded (`NoOverflow`): there `teethCount * 2` (gear.cpp:19) or `idx + 3` (gear.cpp:45) overflows a C++ `int`, which is undefined behaviour, so the code has no defined result to model.
- The hand (`hand.cpp`), the shader program loader (`shaderprogram.cpp`) and the window, input and render loop (`main_file.cpp`) are OpenGL, GLFW and file I/O code and are not part of this model.
