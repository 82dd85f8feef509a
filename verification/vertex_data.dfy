/** The interleaved vertex array `drawTri` builds for one triangle, and the
    attribute layout the GPU uses to read it back. Only the array contents and
    the layout arithmetic are modelled; the buffer upload and draw are not. */
module VertexData {
  import opened Values

  /** Floats per vertex: 3 position, 3 colour, 2 texture coordinates. */
  const Stride: nat := 8
  const VerticesPerTriangle: nat := 3
  const FloatsPerTriangle: nat := VerticesPerTriangle * Stride

  /** Corner `k` of `t`, in the order the array lists them (top, bottom right, bottom left). */
  function Corner(t: Triangle, k: nat): Point
    requires k < VerticesPerTriangle
  {
    if k == 0 then t.a else if k == 1 then t.b else t.c
  }

  /** The fixed colour of corner `k`; it does not depend on the geometry. */
  function CornerColor(k: nat): ColorVec3
    requires k < VerticesPerTriangle
  {
    if k == 0 then ColorVec3(0.5, 0.5, 0.5)
    else if k == 1 then ColorVec3(0.15, 0.15, 0.1)
    else ColorVec3(0.1, 0.1, 0.1)
  }

  /** The `width` floats of vertex `k`'s attribute that starts `offset` floats into the vertex. */
  function Attribute(vs: seq<real>, k: nat, offset: nat, width: nat): seq<real>
    requires k * Stride + offset + width <= |vs|
  {
    vs[k * Stride + offset .. k * Stride + offset + width]
  }

  /** The `tri[]` array of `drawTri(A, B, C)`. */
  function TriVertices(t: Triangle): (vs: seq<real>)
    ensures |vs| == FloatsPerTriangle
    ensures forall k: nat :: k < VerticesPerTriangle ==>
      Attribute(vs, k, 0, 3) == [Corner(t, k).x, Corner(t, k).y, 0.0]
    ensures forall k: nat :: k < VerticesPerTriangle ==>
      Attribute(vs, k, 3, 3) == [CornerColor(k).r, CornerColor(k).g, CornerColor(k).b]
    ensures forall k: nat :: k < VerticesPerTriangle ==>
      Attribute(vs, k, 6, 2) == [0.0, 0.0]
  {
    var vs :=
      [ t.a.x, t.a.y, 0.0,   0.5, 0.5, 0.5,     0.0, 0.0,
        t.b.x, t.b.y, 0.0,   0.15, 0.15, 0.1,   0.0, 0.0,
        t.c.x, t.c.y, 0.0,   0.1, 0.1, 0.1,     0.0, 0.0 ];
    assert vs[0..3] == [t.a.x, t.a.y, 0.0];
    assert vs[3..6] == [0.5, 0.5, 0.5];
    assert vs[6..8] == [0.0, 0.0];
    assert vs[8..11] == [t.b.x, t.b.y, 0.0];
    assert vs[11..14] == [0.15, 0.15, 0.1];
    assert vs[14..16] == [0.0, 0.0];
    assert vs[16..19] == [t.c.x, t.c.y, 0.0];
    assert vs[19..22] == [0.1, 0.1, 0.1];
    assert vs[22..24] == [0.0, 0.0];
    vs
  }

  /** Reads the three corners back from the position attribute of a triangle's array. */
  function DecodeTriangle(vs: seq<real>): Triangle
    requires |vs| == FloatsPerTriangle
  {
    Triangle(Point(vs[0], vs[1]), Point(vs[Stride], vs[Stride + 1]),
             Point(vs[2 * Stride], vs[2 * Stride + 1]))
  }

  /** The array keeps the whole triangle: reading the positions back gives it again. */
  lemma DecodeTriVertices(t: Triangle)
    ensures DecodeTriangle(TriVertices(t)) == t
  {
  }

  /** Two triangles with the same array are the same triangle. */
  lemma TriVerticesInjective(t: Triangle, u: Triangle)
    requires TriVertices(t) == TriVertices(u)
    ensures t == u
  {
    DecodeTriVertices(t);
    DecodeTriVertices(u);
  }

  /** One `glVertexAttribPointer` setting: `size` floats starting `offset`
      floats into each vertex, with the vertex stride fixed at `Stride`. */
  datatype AttribLayout = AttribLayout(size: nat, offset: nat)

  /** Whether every vertex's fetch of attribute `l` stays inside an array of `count` floats. */
  predicate FetchInBounds(l: AttribLayout, vertices: nat, count: nat)
  {
    forall k: nat :: k < vertices ==> k * Stride + l.offset + l.size <= count
  }

  const PositionLayout := AttribLayout(3, 0)
  const ColorLayout := AttribLayout(3, 3)
  /** The texture coordinate attribute as `drawTri` declares it: three floats at offset 6. */
  const TexCoordLayoutAsWritten := AttribLayout(3, 6)
  /** Two floats at offset 6, matching the two texture coordinates each vertex carries. */
  const TexCoordLayout := AttribLayout(2, 6)

  /** As declared, the last vertex's texture fetch covers indices 22..24, but the
      array's last index is 23. */
  lemma TexCoordFetchOverruns()
    ensures 2 * Stride + TexCoordLayoutAsWritten.offset + TexCoordLayoutAsWritten.size == FloatsPerTriangle + 1
    ensures !FetchInBounds(TexCoordLayoutAsWritten, VerticesPerTriangle, FloatsPerTriangle)
  {
    assert !(2 * Stride + TexCoordLayoutAsWritten.offset + TexCoordLayoutAsWritten.size <= FloatsPerTriangle);
  }

  /** With a two-float texture attribute every fetch stays in the array, and each
      attribute reads exactly the values `drawTri` stored for that vertex. */
  lemma LayoutReadsRecords(t: Triangle)
    ensures FetchInBounds(PositionLayout, VerticesPerTriangle, FloatsPerTriangle)
    ensures FetchInBounds(ColorLayout, VerticesPerTriangle, FloatsPerTriangle)
    ensures FetchInBounds(TexCoordLayout, VerticesPerTriangle, FloatsPerTriangle)
    ensures forall k: nat :: k < VerticesPerTriangle ==>
      Attribute(TriVertices(t), k, TexCoordLayout.offset, TexCoordLayout.size) == [0.0, 0.0]
    ensures forall k: nat :: k < VerticesPerTriangle ==>
      Attribute(TriVertices(t), k, ColorLayout.offset, ColorLayout.size)
        == [CornerColor(k).r, CornerColor(k).g, CornerColor(k).b]
  {
  }
}
