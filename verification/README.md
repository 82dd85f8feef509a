# Sierpinski-Triangle core, modelled in Dafny

The program is an OpenGL tutorial. Most of it sets up a window, shaders and
GPU buffers. Its pure logic is small, and this project models that logic:

- `drawTris(A, B, C, n)` (module `Subdivision`) draws a triangle and recurses
  once into `(A, mid(A, B), mid(A, C))` with depth `n - 1`. The model returns
  the triangles it hands to `drawTri`, in order, instead of issuing GL calls.
  Only the single recursive call is live code. The two other arms at
  `LearnOpenGL/main.cpp:280-281` are commented out and are not modelled. A
  depth of zero or less is not rejected: it draws the input triangle alone.
- `drawTri(A, B, C)` (module `VertexData`) builds an interleaved 24-float
  array. Each of its 3 vertices has 8 floats: a position, a fixed colour and
  two texture coordinates. The model keeps the array contents and the
  attribute layout used to read it back. It leaves out the GL calls.
- `mid` and the `ColorVec3` record (module `Values`).
- `getHSVColor(h, s, v)` (module `Hsv`) converts hue, saturation and value to
  RGB. The sector index is `(int)floor(h / 60) % 6`. C++ `%` truncates toward
  zero, so the model defines it explicitly as `CppRem6`. Dafny's own `%` is
  Euclidean and would give a different answer. As a result, a negative hue
  whose `floor(h / 60)` is not a multiple of 6 gets a negative index and
  comes out black through the `default` branch. Hue periodicity therefore
  holds for every hue outside `[-300, 0)` and fails inside it (`PeriodGap`).
  At `[-360, -300)` it still holds, because C++ gives `-6 % 6 == 0`.

Single-precision floats are modelled as `real`. Each operation has an
independent characterisation proved against it:
- `mid` has the uniqueness of the equidistant point.
- `drawTris` has a closed form for its `k`-th triangle.
- The vertex array has a decoder that recovers the triangle.
- `getHSVColor` has the sector-free textbook HSV formula. The model proves
  the two agree for every hue whose sector is 0..5, which includes every hue
  of zero or more. Every other hue is black.

## Model

| member | source | states |
|---|---|---|
| Values.Mid | LearnOpenGL/main.cpp:293-298 | the midpoint is as far from each end as from the other, on each axis |
| Values.MidUnique | LearnOpenGL/main.cpp:293-298 | any point equidistant from both ends on each axis is `mid` |
| Values.MidSymmetric | LearnOpenGL/main.cpp:293-298 | `mid(A, B) == mid(B, A)` |
| Values.MidIdempotent | LearnOpenGL/main.cpp:293-298 | `mid(A, A) == A` |
| VertexData.TriVertices | LearnOpenGL/main.cpp:238-243 | the array has 3 vertices of 8 floats; vertex k's position is (Pk.x, Pk.y, 0); the colours are (0.5,0.5,0.5), (0.15,0.15,0.1), (0.1,0.1,0.1); the texture coordinates are 0 |
| VertexData.DecodeTriVertices | LearnOpenGL/main.cpp:238-243 | reading the position attribute back from the array gives the triangle drawn |
| VertexData.TriVerticesInjective | LearnOpenGL/main.cpp:238-243 | different triangles give different arrays |
| VertexData.TexCoordFetchOverruns | LearnOpenGL/main.cpp:259 | the texture attribute as declared (3 floats at offset 6, stride 8) makes vertex 2's fetch cover indices 22..24, but the array's last index is 23 |
| VertexData.LayoutReadsRecords | LearnOpenGL/main.cpp:253-259 | with position (3 at 0), colour (3 at 3) and a 2-float texture attribute at 6, every fetch stays in the array and reads the stored colour and texture values |
| Subdivision.DrawTris | LearnOpenGL/main.cpp:275-282 | `drawTris(A, B, C, n)` draws max(n, 0) + 1 triangles, the first is (A, B, C), and every one has A as its first corner |
| Subdivision.NonPositiveDepth | LearnOpenGL/main.cpp:275-277 | a depth of zero or less is accepted and draws only the input triangle |
| Subdivision.EachIsShrunkPrevious | LearnOpenGL/main.cpp:276-279 | each triangle after the first is the previous one scaled by one half about A |
| Subdivision.ClosedForm | LearnOpenGL/main.cpp:276-279 | the k-th triangle is (A, A + (B - A)/2^k, A + (C - A)/2^k) |
| Subdivision.DeeperExtends | LearnOpenGL/main.cpp:275-282 | one more level of depth draws the same triangles followed by one more |
| Subdivision.DrawnVertices | LearnOpenGL/main.cpp:238-251 | the floats uploaded for a run of triangles are 24 per triangle |
| Subdivision.DrawnVerticesBlocks | LearnOpenGL/main.cpp:238-251 | block k of the uploaded floats is exactly the `drawTri` array of triangle k |
| Subdivision.DrawnFloatCount | LearnOpenGL/main.cpp:275-282 | `drawTris(A, B, C, n)` uploads 24 * (max(n, 0) + 1) floats |
| Hsv.CppRem6 | LearnOpenGL/main.cpp:302 | the truncated remainder by 6 has the sign of its operand, is smaller than 6 in size, and differs from it by a multiple of 6 |
| Hsv.CppRem6Unique | LearnOpenGL/main.cpp:302 | those three properties determine the truncated remainder |
| Hsv.Sector | LearnOpenGL/main.cpp:302 | the sector index lies in -5..5, and in 0..5 for a hue of zero or more |
| Hsv.Fraction | LearnOpenGL/main.cpp:303 | `f` lies in [0, 1) and `h / 60 - f` is a whole number |
| Hsv.Sextant | LearnOpenGL/main.cpp:304-322 | for indices 0..5 one channel is `v`; every other index takes `default` and gives black |
| Hsv.HsvToRgb | LearnOpenGL/main.cpp:300-324 | a non-negative sector yields a colour with a channel equal to `v`; a negative one yields black |
| Hsv.SectorOfNonNegativeHue | LearnOpenGL/main.cpp:302 | for h >= 0 the sector is floor(h / 60) mod 6, in 0..5 |
| Hsv.SectorIsEuclidean | LearnOpenGL/main.cpp:302 | whenever the sector is not negative, it equals floor(h / 60) mod 6 |
| Hsv.NegativeSectorIff | LearnOpenGL/main.cpp:302 | the sector index is negative exactly when h < 0 and floor(h / 60) is not a multiple of 6 |
| Hsv.NegativeHueIsBlack | LearnOpenGL/main.cpp:302-321 | such a negative hue returns (0, 0, 0) through `default` |
| Hsv.SectorPeriodic | LearnOpenGL/main.cpp:302 | for every h outside [-300, 0), h + 360 falls in the same sector as h, including at [-360, -300) where C++ gives `-6 % 6 == 0` |
| Hsv.HuePeriodic | LearnOpenGL/main.cpp:302-303 | for every h outside [-300, 0), `getHSVColor(h + 360, s, v) == getHSVColor(h, s, v)` |
| Hsv.PeriodGap | LearnOpenGL/main.cpp:302-321 | for h in [-300, 0) the colour is black, h + 360 lands in a sector 0..5, and the two differ whenever v is not 0 |
| Hsv.NotPeriodicAtMinus60 | LearnOpenGL/main.cpp:302-321 | hue -60 gives black while hue 300 gives (1, 0, 1) |
| Hsv.Primaries | LearnOpenGL/main.cpp:302-320 | (0,1,1) gives red, (120,1,1) gives green and (240,1,1) gives blue |
| Hsv.Achromatic | LearnOpenGL/main.cpp:304-320 | zero saturation gives (v, v, v) in every sector 0..5, so for every h >= 0 |
| Hsv.SextantInRange | LearnOpenGL/main.cpp:304-320 | with s in [0, 1], v >= 0 and f in [0, 1), every channel of sectors 0..5 lies in [0, v] |
| Hsv.ChannelsInRange | LearnOpenGL/main.cpp:300-320 | for every h with a sector in 0..5 (every h >= 0 among them), s in [0, 1] and v >= 0, every channel lies in [0, v] and the largest equals v |
| Hsv.MatchesTextbookFormula | LearnOpenGL/main.cpp:300-324 | for every h with a sector in 0..5 (every h >= 0 among them) the six-way switch equals the sector-free formula v - v*s*max(0, min(k, 4-k, 1)), k = (n + h/60) mod 6, n = 5, 3, 1 |

## Left out

- Window, context and loader setup, texture loading, shader use and the render loop (`main`). These are I/O and graphics-driver calls. The render loop calls `drawTri` directly, and its call to `drawTris` is commented out.
- GL buffer and vertex-array creation, the draw call and the deletes in `drawTri`. These are foreign GPU calls. Only the array contents and the attribute layout arithmetic are modelled.
- What the GL pipeline renders. `drawTri` unbinds its vertex array (`glBindVertexArray(0)`) before its `glDrawArrays` call, so in the 3.3 core profile `main` requests, the draw has no vertex array bound. `DrawTris` therefore lists the triangles the code hands to `drawTri` and means to draw, not what appears on screen.
- The `std::cout` trace of `n` in `drawTris`. It is an output side effect and does not affect what is drawn.
- `processInput` and the global `mixValue`. They read keyboard state and nudge a float by ±0.05 without bound.
- Commented-out code: the two extra recursion arms of `drawTris` and the time-driven hue uniform in the render loop. Neither is live.
- IEEE single-precision rounding. Coordinates, colours and hues are `real`, so exact identities such as hue periodicity hold in the model but need not hold bit-for-bit in `float`.
- Hsv.Sector: the `(int)` cast of `floor(h / 60)` is undefined in C++ when the value does not fit in an `int`. The model uses an unbounded integer, so for such huge hues it is stronger than the source, which promises nothing.
- `Shader.h` and the `Shader` class are not part of this model.

## Findings

| source | as written | input that shows it | evidently intended | confidence | as-written member | corrected member |
|---|---|---|---|---|---|---|
| LearnOpenGL/main.cpp:259 | the texture-coordinate attribute is declared with 3 components at offset 6 under an 8-float stride, but each vertex carries 2 texture coordinates | vertex 2 of any triangle: a fetch through this layout covers indices 22..24 of `tri[]`, whose last index is 23. As written the overrun is latent: `drawTri` unbinds the vertex array at LearnOpenGL/main.cpp:262 before drawing at LearnOpenGL/main.cpp:266, so no fetch goes through this layout | 2 components, as in the commented-out setup at LearnOpenGL/main.cpp:130 | medium that the declaration is wrong; low that it has any effect as written, since the draw does not use it; not executed | VertexData.TexCoordFetchOverruns | VertexData.LayoutReadsRecords |
