/** `drawTris`: the single-arm recursive subdivision. Instead of issuing one
    draw call per triangle, the model returns the triangles in drawing order. */
module Subdivision {
  import opened Values
  import opened VertexData

  /** The triangle drawn one level deeper: the corner at `a` with both of its
      edges halved, i.e. `t` scaled by one half about `t.a`. */
  function Shrink(t: Triangle): Triangle
  {
    Triangle(t.a, Mid(t.a, t.b), Mid(t.a, t.c))
  }

  /** The triangles `drawTris(A, B, C, n)` hands to `drawTri`, in order. A depth
      of zero or less is not rejected: it hands over the input triangle alone. */
  function DrawTris(a: Point, b: Point, c: Point, n: int): (ts: seq<Triangle>)
    ensures |ts| == (if n > 0 then n else 0) + 1
    ensures ts[0] == Triangle(a, b, c)
    ensures forall k :: 0 <= k < |ts| ==> ts[k].a == a
    decreases n
  {
    [Triangle(a, b, c)] + (if n > 0 then DrawTris(a, Mid(a, b), Mid(a, c), n - 1) else [])
  }

  /** A depth of zero or below draws exactly the input triangle. */
  lemma NonPositiveDepth(a: Point, b: Point, c: Point, n: int)
    requires n <= 0
    ensures DrawTris(a, b, c, n) == [Triangle(a, b, c)]
  {
  }

  /** Each triangle after the first is the previous one scaled by one half about `a`. */
  lemma {:induction false} EachIsShrunkPrevious(a: Point, b: Point, c: Point, n: int)
    ensures forall k :: 0 <= k < |DrawTris(a, b, c, n)| - 1 ==>
      DrawTris(a, b, c, n)[k + 1] == Shrink(DrawTris(a, b, c, n)[k])
    decreases n
  {
    if n > 0 {
      var ts := DrawTris(a, b, c, n);
      var rest := DrawTris(a, Mid(a, b), Mid(a, c), n - 1);
      EachIsShrunkPrevious(a, Mid(a, b), Mid(a, c), n - 1);
      assert ts == [Triangle(a, b, c)] + rest;
      forall k | 0 <= k < |ts| - 1
        ensures ts[k + 1] == Shrink(ts[k])
      {
        if k > 0 {
          assert ts[k] == rest[k - 1];
          assert ts[k + 1] == rest[k];
        }
      }
    }
  }

  /** Closed form: the `k`-th triangle is `(A, A + (B - A)/2^k, A + (C - A)/2^k)`. */
  lemma {:induction false} ClosedForm(a: Point, b: Point, c: Point, n: int, k: nat)
    requires k < |DrawTris(a, b, c, n)|
    ensures DrawTris(a, b, c, n)[k]
      == Triangle(a, Toward(a, b, HalfPow(k)), Toward(a, c, HalfPow(k)))
    decreases n
  {
    if k == 0 {
      assert Toward(a, b, 1.0) == b;
      assert Toward(a, c, 1.0) == c;
    } else {
      var b', c' := Mid(a, b), Mid(a, c);
      ClosedForm(a, b', c', n - 1, k - 1);
      assert DrawTris(a, b, c, n)[k] == DrawTris(a, b', c', n - 1)[k - 1];
      MidIsHalfway(a, b);
      MidIsHalfway(a, c);
      TowardCompose(a, b, 0.5, HalfPow(k - 1));
      TowardCompose(a, c, 0.5, HalfPow(k - 1));
    }
  }

  /** Drawing one level deeper draws the same triangles followed by one more. */
  lemma {:induction false} DeeperExtends(a: Point, b: Point, c: Point, n: int)
    requires n >= 0
    ensures DrawTris(a, b, c, n + 1) == DrawTris(a, b, c, n) + [Shrink(DrawTris(a, b, c, n)[n])]
    decreases n
  {
    if n > 0 {
      DeeperExtends(a, Mid(a, b), Mid(a, c), n - 1);
    }
  }

  /** The floats `drawTris` hands to the GPU, one `drawTri` array per triangle, in order. */
  function DrawnVertices(ts: seq<Triangle>): (vs: seq<real>)
    ensures |vs| == FloatsPerTriangle * |ts|
  {
    if ts == [] then [] else TriVertices(ts[0]) + DrawnVertices(ts[1..])
  }

  /** A slice lying wholly in the second part of a concatenation is a slice of that part. */
  lemma SliceAfterPrefix(xs: seq<real>, ys: seq<real>, i: nat, j: nat)
    requires |xs| <= i <= j <= |xs| + |ys|
    ensures (xs + ys)[i..j] == ys[i - |xs| .. j - |xs|]
  {
  }

  /** Block `k` of the uploaded floats is exactly the array of triangle `k`. */
  lemma {:induction false} DrawnVerticesBlocks(ts: seq<Triangle>, k: nat)
    requires k < |ts|
    ensures DrawnVertices(ts)[FloatsPerTriangle * k .. FloatsPerTriangle * (k + 1)] == TriVertices(ts[k])
  {
    var head, tail := TriVertices(ts[0]), DrawnVertices(ts[1..]);
    assert DrawnVertices(ts) == head + tail;
    if k > 0 {
      DrawnVerticesBlocks(ts[1..], k - 1);
      SliceAfterPrefix(head, tail, FloatsPerTriangle * k, FloatsPerTriangle * (k + 1));
      assert FloatsPerTriangle * k - |head| == FloatsPerTriangle * (k - 1);
      assert ts[1..][k - 1] == ts[k];
    }
  }

  /** `drawTris(A, B, C, n)` uploads 24 floats per triangle, `max(n, 0) + 1` triangles in all. */
  lemma DrawnFloatCount(a: Point, b: Point, c: Point, n: int)
    ensures |DrawnVertices(DrawTris(a, b, c, n))| == FloatsPerTriangle * ((if n > 0 then n else 0) + 1)
  {
  }
}
