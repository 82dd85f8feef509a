/** Value types of the renderer: 2D points, triangles, RGB colours, and the
    midpoint of two points. Single-precision floats are modelled as reals. */
module Values {

  /** A `glm::vec2` in normalized device coordinates. */
  datatype Point = Point(x: real, y: real)

  /** An ordered triple of corners; the order decides which edges get halved. */
  datatype Triangle = Triangle(a: Point, b: Point, c: Point)

  /** `ColorVec3`: three colour channels, not clamped. */
  datatype ColorVec3 = ColorVec3(r: real, g: real, b: real)

  const Black := ColorVec3(0.0, 0.0, 0.0)

  /** `mid(A, B)`: the component-wise mean. Along each axis the result is as far
      from `p` as it is from `q`, which pins it down (see `MidUnique`). */
  function Mid(p: Point, q: Point): (m: Point)
    ensures m.x - p.x == q.x - m.x
    ensures m.y - p.y == q.y - m.y
  {
    Point((p.x + q.x) / 2.0, (p.y + q.y) / 2.0)
  }

  /** The only point equidistant from both ends on each axis is `Mid`. */
  lemma MidUnique(p: Point, q: Point, m: Point)
    requires m.x - p.x == q.x - m.x
    requires m.y - p.y == q.y - m.y
    ensures m == Mid(p, q)
  {
  }

  lemma MidSymmetric(p: Point, q: Point)
    ensures Mid(p, q) == Mid(q, p)
  {
  }

  lemma MidIdempotent(p: Point)
    ensures Mid(p, p) == p
  {
  }

  /** The point a fraction `s` of the way from `o` to `p`: `o + s * (p - o)`. */
  function Toward(o: Point, p: Point, s: real): Point
  {
    Point(o.x + s * (p.x - o.x), o.y + s * (p.y - o.y))
  }

  /** `Mid(o, p)` is the point halfway from `o` to `p`. */
  lemma MidIsHalfway(o: Point, p: Point)
    ensures Mid(o, p) == Toward(o, p, 0.5)
  {
  }

  /** Two moves toward `p` about the same origin compose by multiplying the fractions. */
  lemma TowardCompose(o: Point, p: Point, s: real, t: real)
    ensures Toward(o, Toward(o, p, s), t) == Toward(o, p, s * t)
  {
    var q := Toward(o, p, s);
    assert q.x - o.x == s * (p.x - o.x) && q.y - o.y == s * (p.y - o.y);
    ScaleCompose(s, t, p.x - o.x);
    ScaleCompose(s, t, p.y - o.y);
    assert Toward(o, q, t).x == o.x + (s * t) * (p.x - o.x);
    assert Toward(o, q, t).y == o.y + (s * t) * (p.y - o.y);
  }

  /** Scaling by `s` and then by `t` is scaling by `s * t`. */
  lemma ScaleCompose(s: real, t: real, d: real)
    ensures t * (s * d) == (s * t) * d
  {
  }

  /** 1 / 2^k. */
  function HalfPow(k: nat): (r: real)
    ensures 0.0 < r <= 1.0
  {
    if k == 0 then 1.0 else HalfPow(k - 1) / 2.0
  }
}
