# CGA grammar viewer: snapping, polygon-union clean-up and object normalisation

This project models three self-contained pieces of the CGA grammar viewer
(CGAGrammarCPUShader) in Dafny, and proves what they promise.

- **Decimal snapping** (`utils::round1`, `utils::round2`, in scalar and
  `glm::vec3` form). A value is snapped to the nearest multiple of 0.1 or
  0.01, and halves go away from zero. `Utils.Round1` and `Utils.Round2`
  follow the code: they truncate `val * 10 ± 0.5` toward zero, as the C++
  `(int)` cast does (`Utils.Trunc`). They are proved against an independent
  reference definition, `SnapsTo`. Further lemmas prove that snapping is odd,
  stays within half a step of the input, and is idempotent.
- **`utils::union_polygons`** (module `Utils`).
  - The method clears its output and refuses polygons with fewer than three
    vertices.
  - It asks the exact 2D union for the outer boundary.
  - It then builds the output polygon vertex by vertex. A vertex within 0.1
    of the last kept one is skipped. A vertex that continues the last kept
    edge almost straight overwrites the last kept vertex. Any other vertex is
    appended.
  - The last kept vertex is dropped when more than three vertices remain and
    it lies almost straight on the wrap-around edge.
  - The clean-up is specified by the functions `KeepStep`, `Kept`,
    `DropClosingVertex` and `Cleanup`. The methods `KeepVertex`,
    `KeepVertices` and `UnionPolygons` are proved against them.
  - Lemmas prove three facts about the result. It is a subsequence of the
    boundary that starts with the first boundary vertex. No two consecutive
    vertices in it are within 0.1 of each other. It is never longer than the
    boundary.
- **`GLWidget3D::normalizeObjectSize`** (module `GLWidget3D`).
  - The polygon buffer is an array of polygons, and each polygon is a
    sequence of vertices.
  - `ComputeBounds` is the first nested loop. It is proved to compute the
    componentwise minimum and maximum of all vertex positions.
  - `NormalizeObjectSize` rewrites every position in place to
    `(p - center) * (1 / size)`.
  - Lemmas prove that afterwards every coordinate lies in [-0.5, 0.5].
    Along every longest side of the box, some vertex is at -0.5 and some
    at 0.5.

The module `Glm` holds the few `vec3` operations that the code uses. All
quantities are exact reals. "Closer than 0.1" is compared with squared
lengths. "The dot product of the normalised directions exceeds 0.99" is
compared squared. A zero-length direction makes glm's comparison false,
because it is NaN, and the squared form is false there too.

## Model

| member | source | states |
|---|---|---|
| Utils.Trunc | CGAGrammarCPUShader/Utils.cpp:78-81 | the `(int)` conversion truncates toward zero: the result lies within 1 of the value, on the side of zero |
| Utils.Round1 | CGAGrammarCPUShader/Utils.cpp:77-83 | the result is on the 0.1 grid, and is the input rounded to the nearest tenth with halves away from zero (reference definition `SnapsTo`); it differs from the input by at most 0.05 |
| Utils.Round2 | CGAGrammarCPUShader/Utils.cpp:85-91 | the same for hundredths, within 0.005 |
| Utils.Round1Odd | CGAGrammarCPUShader/Utils.cpp:77-83 | round1(-v) == -round1(v) for every v |
| Utils.Round2Odd | CGAGrammarCPUShader/Utils.cpp:85-91 | round2(-v) == -round2(v) for every v |
| Utils.Round1Idempotent | CGAGrammarCPUShader/Utils.cpp:77-83 | snapping an already snapped value changes nothing |
| Utils.Round2Idempotent | CGAGrammarCPUShader/Utils.cpp:85-91 | the same for round2 |
| Utils.Round1Examples | CGAGrammarCPUShader/Utils.cpp:77-83 | worked values, including ties of both signs going away from zero |
| Utils.Round1Vec | CGAGrammarCPUShader/Utils.cpp:93-100 | each component is round1 of the same component, hence within 0.05 of it |
| Utils.Round2Vec | CGAGrammarCPUShader/Utils.cpp:102-109 | each component is round2 of the same component, within 0.005 |
| Utils.Round1VecProperties | CGAGrammarCPUShader/Utils.cpp:93-100 | the vec3 round1 is idempotent and commutes with negation |
| Utils.Round2VecProperties | CGAGrammarCPUShader/Utils.cpp:102-109 | the vec3 round2 is idempotent and commutes with negation |
| Utils.KeepStep | CGAGrammarCPUShader/Utils.cpp:58-64 | one loop pass adds at most one vertex; a vertex after the first that lies within 0.1 of the last kept one leaves the list unchanged; the length stays the same with only the last vertex replaced exactly when the vertex is not skipped and continues the last kept edge almost straight; otherwise it is appended after the unchanged list |
| Utils.Kept | CGAGrammarCPUShader/Utils.cpp:55-65 | the loop keeps at most one vertex per boundary vertex and always keeps the first |
| Utils.TooClose | CGAGrammarCPUShader/Utils.cpp:58 | `glm::length(a - b) < 0.1`, compared squared; a vertex is always too close to itself, so an exact repeat is skipped |
| Utils.AlmostCollinear | CGAGrammarCPUShader/Utils.cpp:60-67 | the test at lines 60 and 67: the dot product of the normalised directions exceeds 0.99, compared squared with the sign kept; it never holds when either direction is the zero vector, as glm's NaN comparison is false |
| Utils.DropClosingVertex | CGAGrammarCPUShader/Utils.cpp:67-69 | the wrap-around pass removes at most one vertex, only the last; it removes it exactly when more than three remain and the last lies almost straight between its predecessor and the first vertex |
| Utils.Cleanup | CGAGrammarCPUShader/Utils.cpp:55-69 | the polygon union_polygons returns (clean-up loop, then wrap-around pass) is no longer than the boundary and starts with its first vertex |
| Utils.KeptSubsequence | CGAGrammarCPUShader/Utils.cpp:55-65 | the kept vertices are boundary vertices in boundary order |
| Utils.KeptSpaced | CGAGrammarCPUShader/Utils.cpp:58-64 | no two consecutive kept vertices are within 0.1 of each other, including after an overwrite |
| Utils.CleanupProperties | CGAGrammarCPUShader/Utils.cpp:55-69 | the returned polygon is no longer than the boundary, starts with its first vertex, is a subsequence of it and has no two consecutive vertices within 0.1 |
| Utils.KeepVertex | CGAGrammarCPUShader/Utils.cpp:58-64 | the loop body (skip, overwrite the last element, or push_back) computes KeepStep |
| Utils.KeepVertices | CGAGrammarCPUShader/Utils.cpp:55-65 | the loop over the boundary computes Kept |
| Utils.UnionPolygons | CGAGrammarCPUShader/Utils.cpp:14-74 | returns true exactly when both inputs have at least three vertices and the join succeeds; otherwise the output is empty; on success the output is the cleaned-up union boundary |
| Utils.SkippedSecondVertexReadsOutOfRange | CGAGrammarCPUShader/Utils.cpp:60 | for any boundary whose second vertex is skipped and whose third is not, the collinearity test as written reads index size()-2 while one vertex is kept |
| Utils.SkippedSecondVertexExample | CGAGrammarCPUShader/Utils.cpp:58-60 | a concrete such boundary, (0,0,0), (0.05,0,0), (1,0,0); the corrected step keeps the first and third vertices |
| GLWidget3D.ComputeBounds | CGAGrammarCPUShader/GLWidget3D.cpp:102-115 | the nested loop leaves minPt and maxPt equal to BoxMin and BoxMax of all positions in visiting order |
| GLWidget3D.LowestIsMinimum | CGAGrammarCPUShader/GLWidget3D.cpp:106-115 | over a non-empty buffer of finite floats, minPt's component is no larger than any position's and equals one of them |
| GLWidget3D.HighestIsMaximum | CGAGrammarCPUShader/GLWidget3D.cpp:106-115 | maxPt's component is no smaller than any position's and equals one of them |
| GLWidget3D.InsideBox | CGAGrammarCPUShader/GLWidget3D.cpp:106-115 | every vertex position lies inside the computed box |
| GLWidget3D.BoxAttained | CGAGrammarCPUShader/GLWidget3D.cpp:106-115 | both box faces along each axis touch some vertex |
| GLWidget3D.Center | CGAGrammarCPUShader/GLWidget3D.cpp:117 | center is the midpoint: center - minPt == maxPt - center |
| GLWidget3D.Size | CGAGrammarCPUShader/GLWidget3D.cpp:119 | size is no smaller than any extent of the box and equal to one of them |
| GLWidget3D.Rescaled | CGAGrammarCPUShader/GLWidget3D.cpp:123-127 | every position becomes (old - center) * scale; the number of polygons, each polygon's vertex count, normals and colours are unchanged |
| GLWidget3D.RescaleInPlace | CGAGrammarCPUShader/GLWidget3D.cpp:124-126 | the inner loop rewrites polygon i as Rescaled does and leaves every other polygon as it was |
| GLWidget3D.NormalizeObjectSize | CGAGrammarCPUShader/GLWidget3D.cpp:101-128 | the buffer afterwards is the input rescaled about the box centre by 1/size |
| GLWidget3D.Normalized | CGAGrammarCPUShader/GLWidget3D.cpp:117-127 | the buffer after normalisation, for a box of non-zero size: same number of polygons and vertices per polygon, normals and colours untouched (positions as in Rescaled about the centre by 1/size) |
| GLWidget3D.NormalizedFitsUnitCube | CGAGrammarCPUShader/GLWidget3D.cpp:117-127 | after normalisation every coordinate lies in [-0.5, 0.5] |
| GLWidget3D.NormalizedSpansLongestAxis | CGAGrammarCPUShader/GLWidget3D.cpp:117-127 | along every axis whose extent equals the size (each longest axis, ties included) some vertex lies at -0.5 and some at 0.5 |
| GLWidget3D.EmptyBufferUnchanged | CGAGrammarCPUShader/GLWidget3D.cpp:102-127 | an empty buffer has a negative box size (-2 * FLT_MAX over reals, -inf in float), not 0, so it is accepted and stays empty |

## Left out

- The CGAL exact-kernel `join` and the `Polygon_2` orientation fix-ups (Utils.cpp:33-54) come from a foreign library. `UnionPolygons` takes `join` as a parameter. This oracle fails or returns the outer boundary of the union.
- The glm basis construction, the projection into the first polygon's plane, the `round1` of the projected coordinates and the lift back to 3D (Utils.cpp:20-31, 36-38, 46-47, 56-57) are floating-point linear algebra. The oracle's boundary is taken as already lifted.
- 32-bit float rounding is not modelled. All arithmetic is exact over reals. In particular, `0.1f` and `0.01f` are the exact decimals, and the length and dot comparisons are exact.
- Trunc: the result is an unbounded integer. The C++ `(int)` conversion targets a 32-bit int and is undefined once `val * 10 ± 0.5` (or `val * 100 ± 0.5`) lies outside [-2^31, 2^31), that is for |val| above about 2.1e8 in round1 and 2.1e7 in round2. Round1, Round2 and their lemmas hold for every real only in this model; in the source they hold within that range.
- UnionPolygons: the output reference parameter is modelled as a returned sequence that starts empty.
- `KeepVertex` and `KeepVertices` model the body and the loop of the clean-up as separate methods. `ComputeBounds` and `RescaleInPlace` do the same for the first nested loop and the inner rescale loop of normalizeObjectSize. Each runs the same loop as the source.
- CleanupProperties: the spacing guarantee covers consecutive vertices only, not the closing pair (last, first). The source does not check that pair for closeness.
- NormalizeObjectSize: a buffer whose vertices all share one point (size 0) is excluded by its precondition. The source then divides by zero in floating point and writes infinities or NaN, which reals cannot represent.
- NormalizedFitsUnitCube, NormalizedSpansLongestAxis: they assume every coordinate is a finite 32-bit float, as FLT_MAX as the start value presumes.
- Qt and OpenGL plumbing, `loadCGA` and all of MainWindow are user interface and rendering. CGA.h, Prism.h, Pyramid.h, GLWidget3D.h and Utils.h contain declarations only. Vertex.h is not part of this model, so `Vertex` here holds just the position, normal and colour that normalizeObjectSize reads or keeps.

## Findings

| source | as written | input that shows it | evidently intended | confidence | as-written member | corrected member |
|---|---|---|---|---|---|---|
| CGAGrammarCPUShader/Utils.cpp:60 | the collinearity test is guarded only by `k > 1`, and reads `union_polygon[union_polygon.size() - 2]` | boundary (0,0,0), (0.05,0,0), (1,0,0): vertex 1 is skipped as too close, so at k = 2 one vertex is kept and size() - 2 wraps to an out-of-range index | test collinearity only when at least two vertices have been kept, and otherwise append | medium; not executed | Utils.SkippedSecondVertexReadsOutOfRange | Utils.KeepStep |
