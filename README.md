# Rotating cube drawn with console symbols — a Dafny model

The program spins a wire-frame cube and draws it in a text console. Each frame it:

- builds one rotation as the product of a rotation about X and a rotation about Y, both by the same angle;
- transforms the eight corners of the cube by that matrix, as homogeneous row vectors;
- drops each corner onto the x-z plane, scaled by 5;
- truncates each coordinate to an integer and shifts it by 16;
- draws the four edges of each of the six faces with Bresenham's line algorithm, writing a symbol at every in-bounds cell the line visits.

The model has five modules in four files, one file per part of `Program.cs`:

- `Geometry` (`geometry.dfy`): the `Point3D`, `Point2D` and `Matrix4D` values, the matrix product, the two rotation constructors and `Transform`.
  - Points and matrices are exact reals.
  - The cosine and sine of the angle are the parameters `c` and `s`.
  - A zero homogeneous weight, where the original divides by zero, gives `None`.
- `Mesh` (`mesh.dfy`): the vertex and face tables and the edge loop of a face.
- `Raster` (`raster.dfy`): the line drawer as an imperative `DrawLine` method.
  - `DrawLine` is proved against the reference function `LineCells`, the walk its loop performs.
  - The console's width and height are parameters.
  - Writing a cell is modelled as appending it to the sequence `written`.
  - `RasterExamples`, in the same file, holds the worked examples.
- `Frame` (`frame.dfy`): one pass of the animation loop.
  - `ProjectFace` fills a four-element `array<Point2D>` in a `for` loop.
  - `DrawFace` runs the edge loop.
  - `RenderFrame` runs the face loop.
  - Each is proved equal to a function (`ProjectedFace`, `FaceCells`, `FrameCells`) of which the bounds lemmas speak.

What is proved, in brief:

- **The line loop.**
  - It ends, and only when the current cell equals the target.
  - It visits exactly max(|dx|, |dy|) + 1 cells.
  - It starts at the start and ends at the target.
  - Each step moves to an 8-neighbour in the direction of the target.
  - No cell is visited twice, and all cells lie in the endpoints' bounding box.
  - A cell is written exactly when it is visited and inside the screen.
- **The matrices.**
  - Both rotations and their product keep the last column (0, 0, 0, 1), so the weight is 1 and the divide changes nothing.
  - The X rotation fixes x and the Y rotation fixes y.
  - Each rotation times its transpose is the identity when c² + s² = 1.
  - Transforming by a product is transforming by each factor in turn.
  - The frame's rotation preserves the distance from the origin.
  - The two rotations commute exactly when s = 0.
- **The mesh.**
  - The vertices are the eight distinct corners (±1, ±1, ±1).
  - Every face is four distinct corners on one plane, and its loop runs round the square, never across it.
  - Over the six faces, each of the twelve cube edges is drawn exactly twice, and no other pair of corners is joined.
- **The frame.**
  - Every cell a frame writes is on screen.
  - On the unit circle, every such cell lies in the square [8, 24] × [8, 24].

Bresenham's algorithm is sometimes said to visit the same set of cells when its endpoints are swapped. With this code's tie-breaking (both step tests, `e2 >= dy` and `e2 <= dx`, are inclusive) that is false. The model follows the code: `RasterExamples.ReversedLineDiffers` shows that (0,0)→(2,1) visits (1,1) while (2,1)→(0,0) does not.

## Model

| member | source | states |
|---|---|---|
| `Geometry.Mul` | Rotating3dCubeAs2dSymbols/Program.cs:145-166 | the product of two matrices whose last column is (0, 0, 0, 1) again has that last column |
| `Geometry.MulIdentity` | Rotating3dCubeAs2dSymbols/Program.cs:145-166 | the identity matrix is a unit of the product on both sides |
| `Geometry.RotationX` | Rotating3dCubeAs2dSymbols/Program.cs:168-192 | the X rotation has last column (0, 0, 0, 1), so it never changes the homogeneous weight |
| `Geometry.RotationY` | Rotating3dCubeAs2dSymbols/Program.cs:194-218 | the Y rotation has last column (0, 0, 0, 1) |
| `Geometry.Transform` | Rotating3dCubeAs2dSymbols/Program.cs:127-135 | there is no result exactly when the weight w is 0; otherwise each coordinate times w is the row vector (x, y, z, 1) times that column of the matrix; for an affine matrix w = 1 and the result is those products themselves |
| `Geometry.TransformMul` | Rotating3dCubeAs2dSymbols/Program.cs:127-166 | transforming by a * b, for affine a and b, is transforming by a and then by b |
| `Geometry.NumeratorXMul` | Rotating3dCubeAs2dSymbols/Program.cs:127-166 | the x coordinate of the product rule above, before the divide |
| `Geometry.RotationXFixesX` | Rotating3dCubeAs2dSymbols/Program.cs:168-192 | transforming by the X rotation always succeeds and keeps the x coordinate |
| `Geometry.RotationYFixesY` | Rotating3dCubeAs2dSymbols/Program.cs:194-218 | transforming by the Y rotation always succeeds and keeps the y coordinate |
| `Geometry.RotationXOrthogonal` | Rotating3dCubeAs2dSymbols/Program.cs:168-192 | when c² + s² = 1, the X rotation times its transpose, in either order, is the identity |
| `Geometry.RotationYOrthogonal` | Rotating3dCubeAs2dSymbols/Program.cs:194-218 | when c² + s² = 1, the Y rotation times its transpose, in either order, is the identity |
| `Geometry.RotationXPreservesNorm` | Rotating3dCubeAs2dSymbols/Program.cs:168-192 | on the unit circle the X rotation keeps the squared distance from the origin |
| `Geometry.RotationYPreservesNorm` | Rotating3dCubeAs2dSymbols/Program.cs:194-218 | on the unit circle the Y rotation keeps the squared distance from the origin |
| `Geometry.ComposedRotation` | Rotating3dCubeAs2dSymbols/Program.cs:50 | the frame's matrix RotationX * RotationY is affine, gives weight 1 for every point and keeps the squared distance from the origin |
| `Geometry.RotationsCommuteIff` | Rotating3dCubeAs2dSymbols/Program.cs:50 | for one angle, RotationX * RotationY equals RotationY * RotationX if and only if s = 0, so the order of the product matters |
| `Mesh.VerticesAreCorners` | Rotating3dCubeAs2dSymbols/Program.cs:21-31 | there are eight vertices, pairwise distinct, each with every coordinate ±1 and so at squared distance 3 |
| `Mesh.VertexBits` | Rotating3dCubeAs2dSymbols/Program.cs:21-31 | vertex v has the binary digits of v, high to low, as the signs of its x, y and z |
| `Mesh.CubeEdgeBits` | Rotating3dCubeAs2dSymbols/Program.cs:21-31 | two vertices differ in exactly one coordinate if and only if their indices differ in exactly one binary digit |
| `Mesh.FacesAreValid` | Rotating3dCubeAs2dSymbols/Program.cs:34-42 | there are six faces of four indices each, all of them valid vertex indices |
| `Mesh.Edge` | Rotating3dCubeAs2dSymbols/Program.cs:65-68 | edge k of a face runs from its k-th index to the next, the last one back to the first |
| `Mesh.FaceOnPlane` | Rotating3dCubeAs2dSymbols/Program.cs:34-42 | the four corners of face f share the coordinate on axis FaceAxis(f) |
| `Mesh.FaceCornersDistinct` | Rotating3dCubeAs2dSymbols/Program.cs:34-42 | the four indices of each face are distinct |
| `Mesh.FaceEdgesOnCube` | Rotating3dCubeAs2dSymbols/Program.cs:34-42 | each of the four edges of each face loop joins corners that differ in one coordinate: the loop runs round the square, not across it |
| `Mesh.FaceIsCubeFace` | Rotating3dCubeAs2dSymbols/Program.cs:34-42 | face f is a face of the cube: four distinct corners on one plane, joined along cube edges |
| `Mesh.FacesAreCubeFaces` | Rotating3dCubeAs2dSymbols/Program.cs:34-42 | every entry of the face table is a face of the cube |
| `Mesh.OppositeFacesX` | Rotating3dCubeAs2dSymbols/Program.cs:34-42 | the two faces normal to x join a and b once when the indices agree in the first binary digit and differ in exactly one digit, otherwise not at all |
| `Mesh.OppositeFacesY` | Rotating3dCubeAs2dSymbols/Program.cs:34-42 | the same for the two faces normal to y and the middle digit |
| `Mesh.OppositeFacesZ` | Rotating3dCubeAs2dSymbols/Program.cs:34-42 | the same for the two faces normal to z and the last digit |
| `Mesh.EdgesJoiningBits` | Rotating3dCubeAs2dSymbols/Program.cs:53-70 | the face loops join a and b twice when the indices differ in one binary digit, otherwise never |
| `Mesh.EveryCubeEdgeDrawnTwice` | Rotating3dCubeAs2dSymbols/Program.cs:53-70 | over the six face loops, each of the twelve cube edges is drawn exactly twice and no other pair of vertices is ever joined |
| `Raster.DrawLine` | Rotating3dCubeAs2dSymbols/Program.cs:78-98 | the loop ends; the cells it visits are exactly `LineCells`; the cells it writes are the visited ones that pass the bounds check, in order; a cell is written if and only if it is visited and on screen |
| `Raster.Plot` | Rotating3dCubeAs2dSymbols/Program.cs:86-91 | one visit adds the current cell to the visited cells, and adds it to the written cells exactly when it is on screen, which keeps `written` the clipped `visited` |
| `Raster.Step` | Rotating3dCubeAs2dSymbols/Program.cs:94-96 | away from the target, one step moves the walker as the reference walk does, and the rest of the reference walk is one pass shorter |
| `Raster.ClipMembers` | Rotating3dCubeAs2dSymbols/Program.cs:86-91 | a cell is written if and only if it is visited and inside the width × height screen |
| `Raster.ClipAppend` | Rotating3dCubeAs2dSymbols/Program.cs:86-91 | the bounds check applied to cells drawn one after another is the bounds check applied to each run of cells in turn |
| `Raster.ProgressStep` | Rotating3dCubeAs2dSymbols/Program.cs:94-96 | one pass keeps the closed form of the error, err = dx·(j+1) + dy·(i+1), where i and j count the steps in x and y. It never steps past the target in either axis, it steps along the major axis on every pass, and it moves to an 8-neighbour towards the target |
| `Raster.ProgressAtEnd` | Rotating3dCubeAs2dSymbols/Program.cs:93 | the loop's exit test holds exactly when both axes have taken all their steps; the walker is always in the endpoints' bounding box; the exit comes after exactly max(\|dx\|, \|dy\|) passes and never earlier |
| `Raster.IterateFacts` | Rotating3dCubeAs2dSymbols/Program.cs:84-96 | after k passes that have not met the target, k ≤ max(\|dx\|, \|dy\|), the target is met exactly at that count, the cell is in the bounding box and the next pass moves to an 8-neighbour |
| `Raster.RunsToEnd` | Rotating3dCubeAs2dSymbols/Program.cs:84-96 | the exit test fails on the first max(\|dx\|, \|dy\|) passes and succeeds on the next: the loop ends |
| `Raster.LineEnds` | Rotating3dCubeAs2dSymbols/Program.cs:78-98 | a line has max(\|dx\|, \|dy\|) + 1 cells and its last cell is the target |
| `Raster.LineCellAt` | Rotating3dCubeAs2dSymbols/Program.cs:78-98 | the n-th visited cell is in the bounding box. Before the last cell it is not the target and is followed by an 8-neighbour. Along the major axis it is n steps from the start |
| `Raster.LineCellsDistinct` | Rotating3dCubeAs2dSymbols/Program.cs:78-98 | two different passes never visit the same cell |
| `Raster.LineShape` | Rotating3dCubeAs2dSymbols/Program.cs:78-98 | the visited cells number max(\|dx\|, \|dy\|) + 1, run from (x1, y1) to (x2, y2), reach the target only at the end, step between 8-neighbours towards the target, never repeat a cell and stay in the bounding box |
| `RasterExamples.HorizontalLine` | Rotating3dCubeAs2dSymbols/Program.cs:78-98 | (0,0)→(3,0) visits (0,0), (1,0), (2,0), (3,0) |
| `RasterExamples.DiagonalLine` | Rotating3dCubeAs2dSymbols/Program.cs:78-98 | (0,0)→(3,3) visits (0,0), (1,1), (2,2), (3,3) |
| `RasterExamples.PointLine` | Rotating3dCubeAs2dSymbols/Program.cs:78-98 | (0,0)→(0,0) visits (0,0) once |
| `RasterExamples.ClippedLine` | Rotating3dCubeAs2dSymbols/Program.cs:78-98 | on a 10 × 10 screen, (-5,-5)→(2,2) writes only (0,0), (1,1), (2,2) |
| `RasterExamples.ReversedLineDiffers` | Rotating3dCubeAs2dSymbols/Program.cs:94-96 | (0,0)→(2,1) visits (1,1) and (2,1)→(0,0) does not, so swapping the endpoints changes the set of cells |
| `Frame.Truncate` | Rotating3dCubeAs2dSymbols/Program.cs:69 | the (int) cast of a non-negative value is at most the value and within 1 below it; of a negative value, at least the value and within 1 above it (truncation toward zero) |
| `Frame.ProjectVertex` | Rotating3dCubeAs2dSymbols/Program.cs:59-61 | the projected point is 5 times the rotated x and z coordinates, the y coordinate being dropped |
| `Frame.ProjectFace` | Rotating3dCubeAs2dSymbols/Program.cs:56-62 | a fresh four-element array is filled with the projections of the face's corners, in the face's order |
| `Frame.DrawFace` | Rotating3dCubeAs2dSymbols/Program.cs:65-70 | the cells written are those of the four edges from corner i to corner (i + 1) mod 4, in order, each drawn between the truncated and shifted corner cells |
| `Frame.FrameRotation` | Rotating3dCubeAs2dSymbols/Program.cs:50 | the frame's matrix is affine, so every corner transforms with weight 1 |
| `Frame.CornerInFrameSquare` | Rotating3dCubeAs2dSymbols/Program.cs:59-69 | on the unit circle every corner lands in the square [8, 24] × [8, 24] once rotated, projected, scaled by 5, truncated and shifted by 16 |
| `Frame.EdgeCellsFollowEdge` | Rotating3dCubeAs2dSymbols/Program.cs:65-70 | the i-th line a face draws joins the projections of the two mesh vertices that `Mesh.Edge` pairs, so the edge counts of `Mesh.EveryCubeEdgeDrawnTwice` are the lines the frame draws |
| `Frame.CursorInBuffer` | Rotating3dCubeAs2dSymbols/Program.cs:89 | on a console of at least 40 by 40, a cell of the frame square is written at a cursor position inside the buffer |
| `Frame.CursorCanLeaveBuffer` | Rotating3dCubeAs2dSymbols/Program.cs:86-89 | the cell (9, 0) passes the bounds check of a 10 by 10 console, yet its cursor column is 13, outside the buffer |
| `Frame.FrameCursorInBuffer` | Rotating3dCubeAs2dSymbols/Program.cs:47-71 | on the unit circle and a console of at least 40 by 40, every cell a frame writes has its cursor position inside the buffer, so the frame never reaches the out-of-range throw |
| `Frame.LineInFrameSquare` | Rotating3dCubeAs2dSymbols/Program.cs:78-98 | every cell written for a line between two cells of that square is in the square and on screen |
| `Frame.FrameBounds` | Rotating3dCubeAs2dSymbols/Program.cs:47-71 | every cell a frame writes is on screen; on the unit circle every such cell is also in the square [8, 24] × [8, 24] |
| `Frame.RenderFrame` | Rotating3dCubeAs2dSymbols/Program.cs:47-71 | one frame writes exactly `FrameCells`, the faces in table order and each face's edges in loop order. Every written cell is on screen, and on the unit circle every written cell is in the square [8, 24] × [8, 24] |

## Left out

- Console I/O is not modelled. This covers `Console.Clear`, window and buffer sizing, `SetCursorPosition` and `Write`. A written cell is appended to a sequence; the width and height are parameters.
- The cursor offset at line 89 is not modelled in `DrawLine`. It shifts each written cell by half the window minus an eighth. It moves where a cell appears, not which cells pass the bounds check.
- Raster.DrawLine: the throw of `SetCursorPosition` is not modelled. The buffer is set to the window's size (lines 18-19), so an on-screen cell whose shifted position falls outside the window aborts the program instead of being written. `Frame.CursorCanLeaveBuffer` gives such a cell on a 10 by 10 console. "Written exactly when visited and on screen" holds for the program only while the shifted position stays in the buffer. `Frame.FrameCursorInBuffer` proves that it always does for the cells of a frame on a console of at least 40 by 40.
- The symbol drawn is not modelled: it does not affect which cells are written.
- `Thread.Sleep`, the endless `while (true)` frame loop and the angle accumulation (`angle += angleSpeed`) are left out. The model covers one frame for a given angle.
- Floating point is not modelled: coordinates are exact reals.
  - `Math.Cos` and `Math.Sin` are replaced by the parameters `c` and `s`.
  - Results about rotations hold when c² + s² = 1 exactly. Rounding in doubles is not captured.
- `int` overflow in `DrawLine` (`2 * err`, `x2 - x1`) is not modelled: integers are unbounded.
- The out-of-range `(int)` casts are not modelled. In the original their result is unspecified for values beyond the `int` range.
- Geometry.Transform: a zero weight gives `None`. In the original it divides by zero and yields infinities or NaN, which the model does not represent.
- Frame.ProjectVertex: requires an affine matrix. The program only ever projects with the affine rotation product.
- Raster.DrawLine: its contract gives the visited cells as `LineCells` and the written ones as their clipped sequence. The shape of those cells is proved about `LineCells` in `Raster.LineShape` rather than repeated in the method's `ensures`.
- The `using static System.Formats.Asn1.AsnWriter` import at line 3 is unused by the program and not modelled.
