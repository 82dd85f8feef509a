/** `getHSVColor`: hue/saturation/value to RGB. The sector index is taken with
    C++'s truncating `%`, so a negative hue can select no sector at all and
    fall through to black. */
module Hsv {
  import opened Values

  /** C++ `a % 6` on `int`: the remainder takes the sign of `a` (Dafny's own
      `%` is Euclidean and never negative). */
  function CppRem6(a: int): (r: int)
    ensures a >= 0 ==> 0 <= r < 6
    ensures a < 0 ==> -6 < r <= 0
    ensures (a - r) % 6 == 0
  {
    if a >= 0 then a % 6 else -((-a) % 6)
  }

  /** The truncated remainder is the only value with the sign of `a`, of size
      below 6, that differs from `a` by a multiple of 6. */
  lemma CppRem6Unique(a: int, r: int)
    requires a >= 0 ==> 0 <= r < 6
    requires a < 0 ==> -6 < r <= 0
    requires (a - r) % 6 == 0
    ensures r == CppRem6(a)
  {
  }

  /** `i = (int)floor(h / 60) % 6`: the sector of the hue, negative for some negative hues. */
  function Sector(h: real): (i: int)
    ensures -6 < i < 6
    ensures h >= 0.0 ==> 0 <= i
  {
    CppRem6((h / 60.0).Floor)
  }

  /** `f = h / 60 - floor(h / 60)`: how far into its sector the hue lies. */
  function Fraction(h: real): (f: real)
    ensures 0.0 <= f < 1.0
    ensures ((h / 60.0 - f).Floor as real) == h / 60.0 - f
  {
    h / 60.0 - ((h / 60.0).Floor as real)
  }

  /** The `switch` of `getHSVColor` for sector index `i` and fraction `f`, with
      `p`, `q` and `t` computed as `getHSVColor` computes them. An index outside
      0..5 takes the `default` branch: black. */
  function Sextant(i: int, f: real, s: real, v: real): (c: ColorVec3)
    ensures 0 <= i <= 5 ==> c.r == v || c.g == v || c.b == v
    ensures !(0 <= i <= 5) ==> c == Black
  {
    var p := v * (1.0 - s);
    var q := v * (1.0 - s * f);
    var t := v * (1.0 - (1.0 - f) * s);
    match i
    case 0 => ColorVec3(v, t, p)
    case 1 => ColorVec3(q, v, p)
    case 2 => ColorVec3(p, v, t)
    case 3 => ColorVec3(p, q, v)
    case 4 => ColorVec3(t, p, v)
    case 5 => ColorVec3(v, p, q)
    case _ => Black
  }

  /** `getHSVColor(h, s, v)`. Inside sectors 0 to 5 one channel is `v`; a
      negative sector index gives black. */
  function HsvToRgb(h: real, s: real, v: real): (c: ColorVec3)
    ensures 0 <= Sector(h) ==> c.r == v || c.g == v || c.b == v
    ensures Sector(h) < 0 ==> c == Black
  {
    Sextant(Sector(h), Fraction(h), s, v)
  }

  /** For a hue of zero or more the sector is the Euclidean remainder, in 0..5. */
  lemma SectorOfNonNegativeHue(h: real)
    requires h >= 0.0
    ensures 0 <= Sector(h) <= 5
    ensures Sector(h) == (h / 60.0).Floor % 6
  {
  }

  /** Whenever the sector index is not negative, it is the Euclidean remainder
      of `floor(h / 60)` by 6. */
  lemma SectorIsEuclidean(h: real)
    requires 0 <= Sector(h)
    ensures Sector(h) == (h / 60.0).Floor % 6
  {
  }

  /** The sector index is negative exactly when the hue is negative and
      `floor(h / 60)` is not a multiple of 6. */
  lemma NegativeSectorIff(h: real)
    ensures Sector(h) < 0 <==> h < 0.0 && (h / 60.0).Floor % 6 != 0
  {
    var k := (h / 60.0).Floor;
    if k < 0 && k % 6 == 0 {
      CppRem6Unique(k, 0);
    }
    if k < 0 && Sector(h) == 0 {
      assert (k - 0) % 6 == 0;
    }
  }

  /** A negative hue whose `floor(h / 60)` is not a multiple of 6 comes out black. */
  lemma NegativeHueIsBlack(h: real, s: real, v: real)
    requires h < 0.0 && (h / 60.0).Floor % 6 != 0
    ensures HsvToRgb(h, s, v) == Black
  {
    NegativeSectorIff(h);
  }

  /** Outside the gap `[-300, 0)`, a hue and the hue one full turn later fall
      in the same sector. Below -360 both indices are negative or both are 0;
      in `[-360, -300)` both are 0, because C++ gives `-6 % 6 == 0`. */
  lemma SectorPeriodic(h: real)
    requires !(-300.0 <= h < 0.0)
    ensures Sector(h + 360.0) == Sector(h)
  {
    var k := (h / 60.0).Floor;
    assert (h + 360.0) / 60.0 == h / 60.0 + 6.0;
    assert ((h + 360.0) / 60.0).Floor == k + 6;
    if h < 0.0 {
      assert h / 60.0 < -5.0;
    }
    CppRem6Shift(k);
  }

  /** The truncated remainder by 6 is unchanged by adding 6, unless that
      carries a negative operand to zero or above from -5..-1. */
  lemma CppRem6Shift(k: int)
    requires !(-5 <= k <= -1)
    ensures CppRem6(k + 6) == CppRem6(k)
  {
    if k < -6 {
      assert (-k) % 6 == (-k - 6) % 6;
    }
  }

  /** Adding a full turn does not change the colour, for every hue outside `[-300, 0)`. */
  lemma HuePeriodic(h: real, s: real, v: real)
    requires !(-300.0 <= h < 0.0)
    ensures HsvToRgb(h + 360.0, s, v) == HsvToRgb(h, s, v)
  {
    SectorPeriodic(h);
    assert (h + 360.0) / 60.0 == h / 60.0 + 6.0;
    assert ((h + 360.0) / 60.0).Floor == (h / 60.0).Floor + 6;
    assert Fraction(h + 360.0) == Fraction(h);
  }

  /** Inside `[-300, 0)` the period breaks: the hue is black, while the same
      place on the wheel one turn later is a sector 0..5 colour, which differs
      from black whenever `v` is not zero. */
  lemma PeriodGap(h: real, s: real, v: real)
    requires -300.0 <= h < 0.0
    ensures HsvToRgb(h, s, v) == Black
    ensures 0 <= Sector(h + 360.0)
    ensures v != 0.0 ==> HsvToRgb(h + 360.0, s, v) != HsvToRgb(h, s, v)
  {
    var k := (h / 60.0).Floor;
    assert -5 <= k <= -1;
    assert k % 6 != 0;
    NegativeHueIsBlack(h, s, v);
  }

  /** An instance of the gap: -60 lies in the same place on the wheel as 300
      but is black, while 300 is magenta. */
  lemma NotPeriodicAtMinus60()
    ensures HsvToRgb(-60.0, 1.0, 1.0) == Black
    ensures HsvToRgb(300.0, 1.0, 1.0) == ColorVec3(1.0, 0.0, 1.0)
  {
    assert (-60.0 / 60.0).Floor == -1;
    assert (300.0 / 60.0).Floor == 5;
  }

  lemma Primaries()
    ensures HsvToRgb(0.0, 1.0, 1.0) == ColorVec3(1.0, 0.0, 0.0)
    ensures HsvToRgb(120.0, 1.0, 1.0) == ColorVec3(0.0, 1.0, 0.0)
    ensures HsvToRgb(240.0, 1.0, 1.0) == ColorVec3(0.0, 0.0, 1.0)
  {
    assert (0.0 / 60.0).Floor == 0;
    assert (120.0 / 60.0).Floor == 2;
    assert (240.0 / 60.0).Floor == 4;
  }

  /** Zero saturation gives the grey `(v, v, v)` in every sector 0..5, hence for every hue of zero or more. */
  lemma Achromatic(h: real, v: real)
    requires 0 <= Sector(h)
    ensures HsvToRgb(h, 0.0, v) == ColorVec3(v, v, v)
  {
  }

  /** `v * (1 - x)` lies in `[0, v]` when `x` is in `[0, 1]` and `v >= 0`. */
  lemma DimmedInRange(v: real, x: real)
    requires 0.0 <= v && 0.0 <= x <= 1.0
    ensures 0.0 <= v * (1.0 - x) <= v
  {
    assert v * (1.0 - x) == v - v * x;
    assert 0.0 <= v * x <= v * 1.0;
  }

  /** The product of two values in `[0, 1]` is in `[0, 1]`. */
  lemma UnitProduct(x: real, y: real)
    requires 0.0 <= x <= 1.0 && 0.0 <= y <= 1.0
    ensures 0.0 <= x * y <= 1.0
  {
    assert x * y <= x * 1.0 by {
      assert x * (1.0 - y) >= 0.0;
    }
  }

  /** With saturation in [0, 1], value not negative and `f` in [0, 1), every
      channel of sectors 0..5 lies in `[0, v]`. */
  lemma SextantInRange(i: int, f: real, s: real, v: real)
    requires 0 <= i <= 5 && 0.0 <= f < 1.0 && 0.0 <= s <= 1.0 && 0.0 <= v
    ensures var c := Sextant(i, f, s, v);
      0.0 <= c.r <= v && 0.0 <= c.g <= v && 0.0 <= c.b <= v
  {
    var p := v * (1.0 - s);
    var q := v * (1.0 - s * f);
    var t := v * (1.0 - (1.0 - f) * s);
    DimmedInRange(v, s);
    UnitProduct(s, f);
    DimmedInRange(v, s * f);
    UnitProduct(1.0 - f, s);
    DimmedInRange(v, (1.0 - f) * s);
    assert 0.0 <= p <= v && 0.0 <= q <= v && 0.0 <= t <= v;
  }

  /** For every hue with a sector in 0..5 (every hue of zero or more among
      them), saturation in [0, 1] and value not negative, every channel lies in
      `[0, v]` and the largest one is `v`. */
  lemma ChannelsInRange(h: real, s: real, v: real)
    requires 0 <= Sector(h) && 0.0 <= s <= 1.0 && 0.0 <= v
    ensures var c := HsvToRgb(h, s, v);
      && 0.0 <= c.r <= v && 0.0 <= c.g <= v && 0.0 <= c.b <= v
      && (c.r == v || c.g == v || c.b == v)
  {
    SextantInRange(Sector(h), Fraction(h), s, v);
  }

  /** `x` reduced into `[0, 6)`. */
  function Mod6(x: real): (y: real)
    ensures 0.0 <= y < 6.0
  {
    x - 6.0 * ((x / 6.0).Floor as real)
  }

  function Min(x: real, y: real): real { if x <= y then x else y }
  function Max(x: real, y: real): real { if x <= y then y else x }

  /** How much saturation removes from a channel at wheel position `k` in [0, 6):
      none on the two sextants the channel dominates, all of it on the two
      opposite ones, and a linear ramp in between. */
  function Ramp(k: real): real
  {
    Max(0.0, Min(Min(k, 4.0 - k), 1.0))
  }

  /** Value `v` with a share `s * r` of it taken away by saturation. */
  function Dim(v: real, s: real, r: real): real
  {
    v - v * s * r
  }

  /** The textbook HSV-to-RGB channel, with no sectors and no `switch`:
      `v - v * s * ramp((n + h / 60) mod 6)`; red, green and blue are `n = 5, 3, 1`. */
  function Channel(n: real, h: real, s: real, v: real): real
  {
    Dim(v, s, Ramp(Mod6(n + h / 60.0)))
  }

  /** `Mod6` of a value already in `[0, 12)` subtracts 6 at most once. */
  lemma Mod6Small(x: real)
    requires 0.0 <= x < 12.0
    ensures Mod6(x) == if x < 6.0 then x else x - 6.0
  {
    if x < 6.0 {
      assert (x / 6.0).Floor == 0;
    } else {
      assert (x / 6.0).Floor == 1;
    }
  }

  /** `Mod6` ignores whole turns of 6. */
  lemma Mod6Shift(x: real, m: int)
    ensures Mod6(x + 6.0 * (m as real)) == Mod6(x)
  {
    assert (x + 6.0 * (m as real)) / 6.0 == x / 6.0 + (m as real);
    assert ((x + 6.0 * (m as real)) / 6.0).Floor == (x / 6.0).Floor + m;
  }

  /** For a hue with a sector in 0..5, channel `n` depends on the hue only
      through its sector and fraction. */
  lemma ChannelBySector(n: real, h: real, s: real, v: real)
    requires 0 <= Sector(h) && 0.0 <= n < 6.0
    ensures Channel(n, h, s, v) == Dim(v, s, Ramp(Mod6(n + ((Sector(h) as real) + Fraction(h)))))
  {
    SectorIsEuclidean(h);
    var k := (h / 60.0).Floor;
    assert k == 6 * (k / 6) + Sector(h);
    var x := n + ((Sector(h) as real) + Fraction(h));
    assert n + h / 60.0 == x + 6.0 * ((k / 6) as real);
    Mod6Shift(x, k / 6);
  }

  /** `Dim` at the four ramp heights the sectors use gives `v`, `p`, `q` and `t`. */
  lemma DimmedForms(f: real, s: real, v: real)
    ensures Dim(v, s, 0.0) == v
    ensures Dim(v, s, 1.0) == v * (1.0 - s)
    ensures Dim(v, s, f) == v * (1.0 - s * f)
    ensures Dim(v, s, 1.0 - f) == v * (1.0 - (1.0 - f) * s)
  {
    assert v * s * f == v * (s * f);
    assert v * s * (1.0 - f) == v * ((1.0 - f) * s);
  }

  /** `Ramp` on the pieces of the wheel a sector can land on. */
  lemma RampPieces(k: real)
    requires 0.0 <= k < 6.0
    ensures k <= 1.0 ==> Ramp(k) == k
    ensures 1.0 <= k <= 3.0 ==> Ramp(k) == 1.0
    ensures 3.0 <= k <= 4.0 ==> Ramp(k) == 4.0 - k
    ensures 4.0 <= k ==> Ramp(k) == 0.0
  {
  }

  /** The ramp heights of red, green and blue (`r5`, `r3`, `r1`) in sector `i`
      at fraction `f`: each is 0, 1, `f` or `1 - f`. */
  predicate RampTable(i: int, f: real, r5: real, r3: real, r1: real)
  {
    match i
    case 0 => r5 == 0.0 && r3 == 1.0 - f && r1 == 1.0
    case 1 => r5 == f && r3 == 0.0 && r1 == 1.0
    case 2 => r5 == 1.0 && r3 == 0.0 && r1 == 1.0 - f
    case 3 => r5 == 1.0 && r3 == f && r1 == 0.0
    case 4 => r5 == 1.0 - f && r3 == 1.0 && r1 == 0.0
    case 5 => r5 == 0.0 && r3 == 1.0 && r1 == f
    case _ => false
  }

  /** The ramp formula at wheel position `i + f` follows `RampTable`. */
  lemma RampsBySector(i: int, f: real)
    requires 0 <= i <= 5 && 0.0 <= f < 1.0
    ensures var x := (i as real) + f;
      RampTable(i, f, Ramp(Mod6(5.0 + x)), Ramp(Mod6(3.0 + x)), Ramp(Mod6(1.0 + x)))
  {
    var x := (i as real) + f;
    Mod6Small(5.0 + x);
    Mod6Small(3.0 + x);
    Mod6Small(1.0 + x);
    RampPieces(Mod6(5.0 + x));
    RampPieces(Mod6(3.0 + x));
    RampPieces(Mod6(1.0 + x));
  }

  /** Each `case` of the `switch` is the ramp formula with its sector's ramp heights. */
  lemma SextantByRamps(i: int, f: real, s: real, v: real, r5: real, r3: real, r1: real)
    requires RampTable(i, f, r5, r3, r1)
    ensures Sextant(i, f, s, v) == ColorVec3(Dim(v, s, r5), Dim(v, s, r3), Dim(v, s, r1))
  {
    DimmedForms(f, s, v);
  }

  /** For every hue with a sector in 0..5, which includes every hue of zero or
      more, `getHSVColor` agrees with the textbook formula; every other hue is
      black (`NegativeHueIsBlack`). */
  lemma MatchesTextbookFormula(h: real, s: real, v: real)
    requires 0 <= Sector(h)
    ensures HsvToRgb(h, s, v)
      == ColorVec3(Channel(5.0, h, s, v), Channel(3.0, h, s, v), Channel(1.0, h, s, v))
  {
    ChannelBySector(5.0, h, s, v);
    ChannelBySector(3.0, h, s, v);
    ChannelBySector(1.0, h, s, v);
    RampsBySector(Sector(h), Fraction(h));
    SextantByRamps(Sector(h), Fraction(h), s, v,
      Ramp(Mod6(5.0 + ((Sector(h) as real) + Fraction(h)))),
      Ramp(Mod6(3.0 + ((Sector(h) as real) + Fraction(h)))),
      Ramp(Mod6(1.0 + ((Sector(h) as real) + Fraction(h)))));
  }
}
