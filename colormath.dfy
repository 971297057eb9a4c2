// HSV <-> RGB and hex <-> RGB conversion, as written (twice, identically) in
// backend/color_utils.py and utils/color_utils.py. Python floats are modelled
// as exact reals and `int(x)` on a float as truncation toward zero.

module ColorMath {
  import opened Common
  import opened Text

  /** An `(r, g, b)` tuple of ints. */
  datatype Rgb = Rgb(r: int, g: int, b: int)

  /** An `(h, s, v)` tuple: hue in degrees, saturation and value in percent. */
  datatype Hsv = Hsv(h: real, s: real, v: real)

  predicate IsByteColor(c: Rgb)
  {
    0 <= c.r < 256 && 0 <= c.g < 256 && 0 <= c.b < 256
  }

  /** Python's float `x % m` for a positive `m`: `x` minus the largest
      whole multiple of `m` not above it. */
  function FMod(x: real, m: real): real
    requires m > 0.0
  {
    x - m * (x / m).Floor as real
  }

  /** The hue wrap `h % 360` lands in [0, 360). */
  lemma WrapHueRange(h: real)
    ensures 0.0 <= FMod(h, 360.0) < 360.0
  {
  }

  /** On [0, 360) the hue wrap is the identity. */
  lemma WrapHueInRange(h: real)
    requires 0.0 <= h < 360.0
    ensures FMod(h, 360.0) == h
  {
  }

  /** Shifting the hue by a full turn does not change the wrap. */
  lemma WrapHuePeriodic(h: real)
    ensures FMod(h + 360.0, 360.0) == FMod(h, 360.0)
  {
    assert (h + 360.0) / 360.0 == h / 360.0 + 1.0;
    assert ((h + 360.0) / 360.0).Floor == (h / 360.0).Floor + 1;
  }

  /** The `% 6` of the red-hue branch: in [0, 6), the identity on [0, 6)
      and one period added on [-6, 0). */
  lemma SixMod(x: real)
    ensures 0.0 <= FMod(x, 6.0) < 6.0
    ensures 0.0 <= x < 6.0 ==> FMod(x, 6.0) == x
    ensures -6.0 <= x < 0.0 ==> FMod(x, 6.0) == x + 6.0
  {
  }

  lemma MulMonotone(m: real, a: real, b: real)
    requires m >= 0.0 && a <= b
    ensures m * a <= m * b
  {
  }

  lemma MulDiv(x: real, m: real)
    requires m != 0.0
    ensures m * (x / m) == x
  {
  }

  /** `max(0, min(100, x)) / 100.0`: a percentage clamped to [0, 100] and
      scaled to [0, 1]. */
  function Unit(x: real): (u: real)
    ensures 0.0 <= u <= 1.0
    ensures 0.0 <= x <= 100.0 ==> u == x / 100.0
  {
    (if x < 0.0 then 0.0 else if x > 100.0 then 100.0 else x) / 100.0
  }

  /** A float product of two computed quantities (kept as one term so that
      the proofs below can name it). */
  function Mul(a: real, b: real): real
  {
    a * b
  }

  /** `int(x * 255)` for a unit-range channel. */
  function Scale(x: real): int
  {
    Trunc(x * 255.0)
  }

  /** `h_sector - sector`: the position inside a 60-degree sector. */
  function Frac(x: real): (f: real)
    requires x >= 0.0
    ensures 0.0 <= f < 1.0
  {
    x - Trunc(x) as real
  }

  /** The six-case table of `hsv_to_rgb`: which of v, p, q, t feeds each
      channel in each 60-degree sector (any sector past 4 takes the last
      row). */
  function SectorTable(sector: int, v: real, p: real, q: real, t: real): (real, real, real)
  {
    if sector == 0 then (v, t, p)
    else if sector == 1 then (q, v, p)
    else if sector == 2 then (p, v, t)
    else if sector == 3 then (p, q, v)
    else if sector == 4 then (t, p, v)
    else (v, p, q)
  }

  /** The unit-range channels `hsv_to_rgb` computes before scaling, from the
      sector, the position `f` inside it, and the unit saturation and value. */
  function Channels(sector: int, f: real, sn: real, vn: real): (real, real, real)
  {
    SectorTable(sector, vn, Mul(vn, 1.0 - sn), Mul(vn, 1.0 - Mul(sn, f)), Mul(vn, 1.0 - Mul(sn, 1.0 - f)))
  }

  /** `hsv_to_rgb(h, s, v)`. */
  function HsvToRgb(h: real, s: real, v: real): Rgb
  {
    var sn, vn := Unit(s), Unit(v);
    if sn == 0.0 then
      Rgb(Scale(vn), Scale(vn), Scale(vn))
    else
      WrapHueRange(h);
      var hs := FMod(h, 360.0) / 60.0;
      var c := Channels(Trunc(hs), Frac(hs), sn, vn);
      Rgb(Scale(c.0), Scale(c.1), Scale(c.2))
  }

  /** Python's `max` / `min` of three floats. */
  function RMax3(a: real, b: real, c: real): (m: real)
    ensures m >= a && m >= b && m >= c
    ensures m == a || m == b || m == c
  {
    if a >= b && a >= c then a else if b >= c then b else c
  }

  function RMin3(a: real, b: real, c: real): (m: real)
    ensures m <= a && m <= b && m <= c
    ensures m == a || m == b || m == c
  {
    if a <= b && a <= c then a else if b <= c then b else c
  }

  /** `c / 255.0`. */
  function Norm(c: int): real
  {
    c as real / 255.0
  }

  function MaxNorm(r: int, g: int, b: int): real
  {
    RMax3(Norm(r), Norm(g), Norm(b))
  }

  function MinNorm(r: int, g: int, b: int): real
  {
    RMin3(Norm(r), Norm(g), Norm(b))
  }

  function Delta(r: int, g: int, b: int): real
  {
    MaxNorm(r, g, b) - MinNorm(r, g, b)
  }

  /** The saturation branch of `rgb_to_hsv`. */
  function Saturation(r: int, g: int, b: int): real
  {
    if MaxNorm(r, g, b) == 0.0 then 0.0 else (Delta(r, g, b) / MaxNorm(r, g, b)) * 100.0
  }

  /** The hue branch of `rgb_to_hsv`: zero for grays, otherwise measured
      from the brightest channel (red first, then green, then blue). */
  function Hue(r: int, g: int, b: int): real
  {
    if Delta(r, g, b) == 0.0 then 0.0
    else if MaxNorm(r, g, b) == Norm(r) then 60.0 * FMod((Norm(g) - Norm(b)) / Delta(r, g, b), 6.0)
    else if MaxNorm(r, g, b) == Norm(g) then 60.0 * ((Norm(b) - Norm(r)) / Delta(r, g, b) + 2.0)
    else 60.0 * ((Norm(r) - Norm(g)) / Delta(r, g, b) + 4.0)
  }

  /** `rgb_to_hsv(r, g, b)`. */
  function RgbToHsv(r: int, g: int, b: int): Hsv
  {
    Hsv(Hue(r, g, b), Saturation(r, g, b), MaxNorm(r, g, b) * 100.0)
  }

  // ---------------------------------------------------------------------
  // Properties of the HSV conversions

  /** A larger unit-range channel never truncates to a smaller byte. */
  lemma ScaleMonotone(x: real, y: real)
    requires 0.0 <= x <= y <= 1.0
    ensures 0 <= Scale(x) <= Scale(y) <= 255
  {
    assert x * 255.0 <= y * 255.0 <= 255.0;
  }

  lemma UnitProduct(a: real, b: real)
    requires 0.0 <= a <= 1.0 && 0.0 <= b <= 1.0
    ensures 0.0 <= Mul(a, b) <= a
  {
    MulMonotone(a, b, 1.0);
  }

  /** `p`, `q` and `t` lie between 0 and the value. */
  lemma PQTBounds(sn: real, vn: real, f: real)
    requires 0.0 < sn <= 1.0 && 0.0 <= vn <= 1.0 && 0.0 <= f < 1.0
    ensures 0.0 <= Mul(vn, 1.0 - sn) <= vn
    ensures 0.0 <= Mul(vn, 1.0 - Mul(sn, f)) <= vn
    ensures 0.0 <= Mul(vn, 1.0 - Mul(sn, 1.0 - f)) <= vn
  {
    UnitProduct(vn, 1.0 - sn);
    UnitProduct(sn, f);
    UnitProduct(vn, 1.0 - Mul(sn, f));
    UnitProduct(sn, 1.0 - f);
    UnitProduct(vn, 1.0 - Mul(sn, 1.0 - f));
  }

  /** Each row of the table draws on v, p, q and t and uses v once, so when
      p, q and t are in [0, v] so is every channel, and one of them is v. */
  lemma SectorTableRows(sector: int, v: real, p: real, q: real, t: real)
    requires 0.0 <= p <= v && 0.0 <= q <= v && 0.0 <= t <= v
    ensures var c := SectorTable(sector, v, p, q, t);
      0.0 <= c.0 <= v && 0.0 <= c.1 <= v && 0.0 <= c.2 <= v &&
      (c.0 == v || c.1 == v || c.2 == v)
  {
  }

  /** Every entry of the table is in [0, vn], and one of them is vn. */
  lemma ChannelBounds(sector: int, f: real, sn: real, vn: real)
    requires 0.0 < sn <= 1.0 && 0.0 <= vn <= 1.0 && 0.0 <= f < 1.0
    ensures var c := Channels(sector, f, sn, vn);
      0.0 <= c.0 <= vn && 0.0 <= c.1 <= vn && 0.0 <= c.2 <= vn &&
      (c.0 == vn || c.1 == vn || c.2 == vn)
  {
    PQTBounds(sn, vn, f);
    SectorTableRows(sector, vn, Mul(vn, 1.0 - sn), Mul(vn, 1.0 - Mul(sn, f)), Mul(vn, 1.0 - Mul(sn, 1.0 - f)));
  }

  /** The wrapped hue falls in one of the six sectors 0..5. */
  lemma SectorRange(h: real)
    ensures 0 <= Trunc(FMod(h, 360.0) / 60.0) <= 5
  {
    WrapHueRange(h);
  }

  /** Every channel `hsv_to_rgb` returns is in 0..255, whatever the inputs:
      the hue wraps and saturation and value are clamped first. Its
      brightest channel is `int(v * 255)` of the clamped value, and with
      zero saturation all three channels are that gray. */
  lemma HsvToRgbChannels(h: real, s: real, v: real)
    ensures var c := HsvToRgb(h, s, v);
      IsByteColor(c) &&
      Max3(c.r, c.g, c.b) == Scale(Unit(v)) &&
      (Unit(s) == 0.0 ==> c.r == c.g == c.b)
  {
    ScaleMonotone(0.0, Unit(v));
    if Unit(s) != 0.0 {
      WrapHueRange(h);
      var hs := FMod(h, 360.0) / 60.0;
      var c := Channels(Trunc(hs), Frac(hs), Unit(s), Unit(v));
      ChannelBounds(Trunc(hs), Frac(hs), Unit(s), Unit(v));
      assert HsvToRgb(h, s, v) == Rgb(Scale(c.0), Scale(c.1), Scale(c.2));
      ScaledChannels(c.0, c.1, c.2, Unit(v));
    }
  }

  /** Channels between 0 and the value, one of them the value, scale to
      bytes whose maximum is the scaled value. */
  lemma ScaledChannels(x: real, y: real, z: real, vn: real)
    requires 0.0 <= x <= vn && 0.0 <= y <= vn && 0.0 <= z <= vn && vn <= 1.0
    requires x == vn || y == vn || z == vn
    ensures 0 <= Scale(x) < 256 && 0 <= Scale(y) < 256 && 0 <= Scale(z) < 256
    ensures Max3(Scale(x), Scale(y), Scale(z)) == Scale(vn)
  {
    ScaleMonotone(x, vn);
    ScaleMonotone(y, vn);
    ScaleMonotone(z, vn);
    ScaleMonotone(0.0, x);
    ScaleMonotone(0.0, y);
    ScaleMonotone(0.0, z);
  }

  /** The hue is taken modulo 360 degrees. */
  lemma HsvHueWraps(h: real, s: real, v: real)
    ensures HsvToRgb(h + 360.0, s, v) == HsvToRgb(h, s, v)
  {
    WrapHuePeriodic(h);
  }

  lemma QuotientBounds(a: real, d: real)
    requires d > 0.0 && -d <= a <= d
    ensures -1.0 <= a / d <= 1.0
    ensures d * (a / d) == a
  {
    MulDiv(a, d);
    DivMonotone(-d, a, d);
    DivMonotone(a, d, d);
  }

  lemma DivMonotone(a: real, b: real, d: real)
    requires d > 0.0 && a <= b
    ensures a / d <= b / d
  {
  }

  lemma SaturationRange(r: byte, g: byte, b: byte)
    ensures 0.0 <= Saturation(r, g, b) <= 100.0
    ensures MaxNorm(r, g, b) > 0.0 ==> Unit(Saturation(r, g, b)) == Delta(r, g, b) / MaxNorm(r, g, b)
    ensures Saturation(r, g, b) == 0.0 <==> Delta(r, g, b) == 0.0
  {
    if MaxNorm(r, g, b) > 0.0 {
      QuotientBounds(Delta(r, g, b), MaxNorm(r, g, b));
      if Delta(r, g, b) / MaxNorm(r, g, b) == 0.0 {
        assert Delta(r, g, b) == 0.0;
      }
    }
  }

  lemma HueRange(r: byte, g: byte, b: byte)
    ensures 0.0 <= Hue(r, g, b) < 360.0
  {
    if Delta(r, g, b) != 0.0 {
      if MaxNorm(r, g, b) == Norm(r) {
      } else if MaxNorm(r, g, b) == Norm(g) {
        QuotientBounds(Norm(b) - Norm(r), Delta(r, g, b));
      } else {
        QuotientBounds(Norm(r) - Norm(g), Delta(r, g, b));
      }
    }
  }

  /** The ranges `rgb_to_hsv` promises for byte channels: hue in [0, 360),
      saturation and value in [0, 100], value the brightest channel as a
      percentage, saturation zero exactly for grays, and hue zero for grays. */
  lemma RgbToHsvRanges(r: byte, g: byte, b: byte)
    ensures var c := RgbToHsv(r, g, b);
      0.0 <= c.h < 360.0 && 0.0 <= c.s <= 100.0 && 0.0 <= c.v <= 100.0 &&
      c.v == Max3(r, g, b) as real * 100.0 / 255.0 &&
      (c.s == 0.0 <==> r == g == b) &&
      (r == g == b ==> c.h == 0.0)
  {
    SaturationRange(r, g, b);
    HueRange(r, g, b);
    assert MaxNorm(r, g, b) == Max3(r, g, b) as real / 255.0;
  }

  /** The algebra of `p`, `q` and `t` when the unit saturation is `d / vn`
      and the position inside the sector is `a / d`, as `rgb_to_hsv`
      computes them. */
  lemma PQTRatio(vn: real, d: real, a: real)
    requires vn > 0.0 && d > 0.0
    ensures Mul(vn, 1.0 - d / vn) == vn - d
    ensures Mul(vn, 1.0 - Mul(d / vn, a / d)) == vn - a
    ensures Mul(vn, 1.0 - Mul(d / vn, 1.0 - a / d)) == vn - d + a
  {
    MulDiv(d, vn);
    MulDiv(a, d);
    assert Mul(d / vn, a / d) == a / vn;
  }

  /** The same algebra one sector later, where the position is `a / d + 1`. */
  lemma PQTRatioNext(vn: real, d: real, a: real, f: real)
    requires vn > 0.0 && d > 0.0 && f == a / d + 1.0
    ensures Mul(vn, 1.0 - Mul(d / vn, f)) == vn - d - a
    ensures Mul(vn, 1.0 - Mul(d / vn, 1.0 - f)) == vn + a
  {
    MulDiv(d, vn);
    MulDiv(a, d);
    assert Mul(d / vn, f) == (a + d) / vn;
    assert Mul(d / vn, 1.0 - f) == -a / vn;
  }

  /** The algebra at the start of a sector, where the position is 0. */
  lemma PQTZero(vn: real, d: real)
    requires vn > 0.0
    ensures Mul(vn, 1.0 - d / vn) == vn - d
    ensures Mul(vn, 1.0 - Mul(d / vn, 0.0)) == vn
    ensures Mul(vn, 1.0 - Mul(d / vn, 1.0 - 0.0)) == vn - d
  {
    MulDiv(d, vn);
  }

  /** The table evaluated at position `a / d`. */
  lemma ChannelsRatio(k: int, vn: real, d: real, a: real)
    requires vn > 0.0 && d > 0.0
    ensures Channels(k, a / d, d / vn, vn) == SectorTable(k, vn, vn - d, vn - a, vn - d + a)
  {
    PQTRatio(vn, d, a);
  }

  /** The table evaluated at position `a / d + 1`. */
  lemma ChannelsRatioNext(k: int, vn: real, d: real, a: real, f: real)
    requires vn > 0.0 && d > 0.0 && f == a / d + 1.0
    ensures Channels(k, f, d / vn, vn) == SectorTable(k, vn, vn - d, vn - d - a, vn + a)
  {
    PQTRatio(vn, d, a);
    PQTRatioNext(vn, d, a, f);
  }

  lemma ScaleExact(n: int)
    ensures Scale(Norm(n)) == n
  {
  }

  /** A row of the table, reached at position `a / d` inside sector `k`
      (the brightest channel rising towards the next primary). */
  lemma RowRising(k: int, hs: real, vn: real, d: real, a: real)
    requires 0 <= k && vn > 0.0 && d > 0.0 && 0.0 <= a < d && hs == a / d + k as real
    ensures Trunc(hs) == k
    ensures Channels(Trunc(hs), Frac(hs), d / vn, vn) == SectorTable(k, vn, vn - d, vn - a, vn - d + a)
  {
    DivMonotone(0.0, a, d);
    DivStrict(a, d);
    TruncShift(k, a / d, hs);
    assert Channels(Trunc(hs), Frac(hs), d / vn, vn) == Channels(k, a / d, d / vn, vn);
    ChannelsRatio(k, vn, d, a);
  }

  /** A row reached at position `a / d + 1` inside sector `k`, for a negative
      `a` (the hue measured back from the next sector). */
  lemma RowFalling(k: int, hs: real, vn: real, d: real, a: real)
    requires 0 <= k && vn > 0.0 && d > 0.0 && -d <= a < 0.0 && hs == a / d + (k + 1) as real
    ensures Trunc(hs) == k
    ensures Channels(Trunc(hs), Frac(hs), d / vn, vn) == SectorTable(k, vn, vn - d, vn - d - a, vn + a)
  {
    QuotientBounds(a, d);
    DivNegative(a, d);
    TruncShift(k, a / d + 1.0, hs);
    ChannelsRatioNext(k, vn, d, a, Frac(hs));
  }

  /** A row reached exactly at the start of sector `k`. */
  lemma RowStart(k: int, hs: real, vn: real, d: real)
    requires 0 <= k && vn > 0.0 && hs == k as real
    ensures Trunc(hs) == k
    ensures Channels(Trunc(hs), Frac(hs), d / vn, vn) == SectorTable(k, vn, vn - d, vn, vn - d)
  {
    assert Frac(hs) == 0.0;
    assert Channels(Trunc(hs), Frac(hs), d / vn, vn) == Channels(k, 0.0, d / vn, vn);
    PQTZero(vn, d);
  }

  /** Truncation of a non-negative number splits it into whole and
      fractional parts. */
  lemma TruncShift(k: int, y: real, x: real)
    requires 0 <= k && 0.0 <= y < 1.0 && x == y + k as real
    ensures Trunc(x) == k && Frac(x) == y
  {
  }

  lemma DivStrict(a: real, d: real)
    requires d > 0.0 && a < d
    ensures a / d < 1.0
  {
  }

  lemma DivNegative(a: real, d: real)
    requires d > 0.0 && a < 0.0
    ensures a / d < 0.0
  {
  }

  /** The hue of a colour whose brightest channel is red. */
  lemma HueRed(r: byte, g: byte, b: byte)
    requires Delta(r, g, b) > 0.0 && MaxNorm(r, g, b) == Norm(r)
    ensures Norm(g) >= Norm(b) ==> Hue(r, g, b) / 60.0 == (Norm(g) - Norm(b)) / Delta(r, g, b)
    ensures Norm(g) < Norm(b) ==> Hue(r, g, b) / 60.0 == (Norm(g) - Norm(b)) / Delta(r, g, b) + 6.0
  {
    QuotientBounds(Norm(g) - Norm(b), Delta(r, g, b));
    if Norm(g) < Norm(b) {
      DivNegative(Norm(g) - Norm(b), Delta(r, g, b));
    } else {
      DivMonotone(0.0, Norm(g) - Norm(b), Delta(r, g, b));
    }
    SixthOfRedHue((Norm(g) - Norm(b)) / Delta(r, g, b), Hue(r, g, b));
  }

  /** The red branch's hue in sixths of a turn: the quotient itself, or one
      full turn added when it is negative. */
  lemma SixthOfRedHue(q: real, h: real)
    requires -1.0 <= q <= 1.0 && h == 60.0 * FMod(q, 6.0)
    ensures q >= 0.0 ==> h / 60.0 == q
    ensures q < 0.0 ==> h / 60.0 == q + 6.0
  {
    SixMod(q);
  }

  /** Red brightest: sector 0 while green rises to red, 1 when they tie, 5
      while blue is above green. */
  lemma RoundTripRed(r: byte, g: byte, b: byte)
    requires Delta(r, g, b) > 0.0 && MaxNorm(r, g, b) == Norm(r)
    ensures Hue(r, g, b) >= 0.0
    ensures Channels(Trunc(Hue(r, g, b) / 60.0), Frac(Hue(r, g, b) / 60.0),
                     Delta(r, g, b) / MaxNorm(r, g, b), MaxNorm(r, g, b))
            == (Norm(r), Norm(g), Norm(b))
  {
    HueRed(r, g, b);
    if Norm(g) < Norm(b) {
      RoundTripRedFalling(r, g, b);
    } else if Norm(g) < Norm(r) {
      RoundTripRedRising(r, g, b);
    } else {
      RoundTripRedTie(r, g, b);
    }
  }

  /** Red brightest and blue above green: sector 5. */
  lemma RoundTripRedFalling(r: byte, g: byte, b: byte)
    requires Delta(r, g, b) > 0.0 && MaxNorm(r, g, b) == Norm(r) && Norm(g) < Norm(b)
    requires Hue(r, g, b) / 60.0 == (Norm(g) - Norm(b)) / Delta(r, g, b) + 6.0
    ensures Channels(Trunc(Hue(r, g, b) / 60.0), Frac(Hue(r, g, b) / 60.0),
                     Delta(r, g, b) / MaxNorm(r, g, b), MaxNorm(r, g, b))
            == (Norm(r), Norm(g), Norm(b))
  {
    assert MinNorm(r, g, b) == Norm(g);
    RowFalling(5, Hue(r, g, b) / 60.0, MaxNorm(r, g, b), Delta(r, g, b), Norm(g) - Norm(b));
  }

  /** Red brightest and green rising below it: sector 0. */
  lemma RoundTripRedRising(r: byte, g: byte, b: byte)
    requires Delta(r, g, b) > 0.0 && MaxNorm(r, g, b) == Norm(r) && Norm(b) <= Norm(g) < Norm(r)
    requires Hue(r, g, b) / 60.0 == (Norm(g) - Norm(b)) / Delta(r, g, b)
    ensures Channels(Trunc(Hue(r, g, b) / 60.0), Frac(Hue(r, g, b) / 60.0),
                     Delta(r, g, b) / MaxNorm(r, g, b), MaxNorm(r, g, b))
            == (Norm(r), Norm(g), Norm(b))
  {
    assert MinNorm(r, g, b) == Norm(b);
    RowRising(0, Hue(r, g, b) / 60.0, MaxNorm(r, g, b), Delta(r, g, b), Norm(g) - Norm(b));
  }

  /** Red and green tie above blue: the start of sector 1. */
  lemma RoundTripRedTie(r: byte, g: byte, b: byte)
    requires Delta(r, g, b) > 0.0 && MaxNorm(r, g, b) == Norm(r) && Norm(g) == Norm(r)
    requires Hue(r, g, b) / 60.0 == (Norm(g) - Norm(b)) / Delta(r, g, b)
    ensures Channels(Trunc(Hue(r, g, b) / 60.0), Frac(Hue(r, g, b) / 60.0),
                     Delta(r, g, b) / MaxNorm(r, g, b), MaxNorm(r, g, b))
            == (Norm(r), Norm(g), Norm(b))
  {
    assert MinNorm(r, g, b) == Norm(b);
    MulDiv(1.0, Delta(r, g, b));
    RowStart(1, Hue(r, g, b) / 60.0, MaxNorm(r, g, b), Delta(r, g, b));
  }

  /** The hue of a colour whose brightest channel is green (and not red). */
  lemma HueGreen(r: byte, g: byte, b: byte)
    requires Delta(r, g, b) > 0.0 && MaxNorm(r, g, b) != Norm(r) && MaxNorm(r, g, b) == Norm(g)
    ensures Hue(r, g, b) / 60.0 == (Norm(b) - Norm(r)) / Delta(r, g, b) + 2.0
  {
  }

  /** Green brightest: sector 1 while blue is below red, 2 while blue rises
      to green, 3 when they tie. */
  lemma RoundTripGreen(r: byte, g: byte, b: byte)
    requires Delta(r, g, b) > 0.0 && MaxNorm(r, g, b) != Norm(r) && MaxNorm(r, g, b) == Norm(g)
    ensures Hue(r, g, b) >= 0.0
    ensures Channels(Trunc(Hue(r, g, b) / 60.0), Frac(Hue(r, g, b) / 60.0),
                     Delta(r, g, b) / MaxNorm(r, g, b), MaxNorm(r, g, b))
            == (Norm(r), Norm(g), Norm(b))
  {
    HueGreen(r, g, b);
    assert Hue(r, g, b) / 60.0 >= 0.0 by {
      QuotientBounds(Norm(b) - Norm(r), Delta(r, g, b));
    }
    if Norm(b) < Norm(r) {
      RoundTripGreenFalling(r, g, b);
    } else if Norm(b) < Norm(g) {
      RoundTripGreenRising(r, g, b);
    } else {
      RoundTripGreenTie(r, g, b);
    }
  }

  /** Green brightest and blue below red: sector 1. */
  lemma RoundTripGreenFalling(r: byte, g: byte, b: byte)
    requires Delta(r, g, b) > 0.0 && MaxNorm(r, g, b) == Norm(g) && Norm(b) < Norm(r)
    requires Hue(r, g, b) / 60.0 == (Norm(b) - Norm(r)) / Delta(r, g, b) + 2.0 >= 0.0
    ensures Channels(Trunc(Hue(r, g, b) / 60.0), Frac(Hue(r, g, b) / 60.0),
                     Delta(r, g, b) / MaxNorm(r, g, b), MaxNorm(r, g, b))
            == (Norm(r), Norm(g), Norm(b))
  {
    assert MinNorm(r, g, b) == Norm(b);
    RowFalling(1, Hue(r, g, b) / 60.0, MaxNorm(r, g, b), Delta(r, g, b), Norm(b) - Norm(r));
  }

  /** Green brightest and blue rising below it: sector 2. */
  lemma RoundTripGreenRising(r: byte, g: byte, b: byte)
    requires Delta(r, g, b) > 0.0 && MaxNorm(r, g, b) == Norm(g) && Norm(r) <= Norm(b) < Norm(g)
    requires Hue(r, g, b) / 60.0 == (Norm(b) - Norm(r)) / Delta(r, g, b) + 2.0 >= 0.0
    ensures Channels(Trunc(Hue(r, g, b) / 60.0), Frac(Hue(r, g, b) / 60.0),
                     Delta(r, g, b) / MaxNorm(r, g, b), MaxNorm(r, g, b))
            == (Norm(r), Norm(g), Norm(b))
  {
    assert MinNorm(r, g, b) == Norm(r);
    RowRising(2, Hue(r, g, b) / 60.0, MaxNorm(r, g, b), Delta(r, g, b), Norm(b) - Norm(r));
  }

  /** Green and blue tie above red: the start of sector 3. */
  lemma RoundTripGreenTie(r: byte, g: byte, b: byte)
    requires Delta(r, g, b) > 0.0 && MaxNorm(r, g, b) == Norm(g) && Norm(b) == Norm(g) && Norm(r) < Norm(g)
    requires Hue(r, g, b) / 60.0 == (Norm(b) - Norm(r)) / Delta(r, g, b) + 2.0 >= 0.0
    ensures Channels(Trunc(Hue(r, g, b) / 60.0), Frac(Hue(r, g, b) / 60.0),
                     Delta(r, g, b) / MaxNorm(r, g, b), MaxNorm(r, g, b))
            == (Norm(r), Norm(g), Norm(b))
  {
    assert MinNorm(r, g, b) == Norm(r);
    MulDiv(1.0, Delta(r, g, b));
    RowStart(3, Hue(r, g, b) / 60.0, MaxNorm(r, g, b), Delta(r, g, b));
  }

  /** The hue of a colour whose brightest channel is blue alone. */
  lemma HueBlue(r: byte, g: byte, b: byte)
    requires Delta(r, g, b) > 0.0 && MaxNorm(r, g, b) != Norm(r) && MaxNorm(r, g, b) != Norm(g)
    ensures Hue(r, g, b) / 60.0 == (Norm(r) - Norm(g)) / Delta(r, g, b) + 4.0
  {
  }

  /** Blue brightest: sector 3 while red is below green, 4 otherwise. */
  lemma RoundTripBlue(r: byte, g: byte, b: byte)
    requires Delta(r, g, b) > 0.0 && MaxNorm(r, g, b) != Norm(r) && MaxNorm(r, g, b) != Norm(g)
    ensures Hue(r, g, b) >= 0.0
    ensures Channels(Trunc(Hue(r, g, b) / 60.0), Frac(Hue(r, g, b) / 60.0),
                     Delta(r, g, b) / MaxNorm(r, g, b), MaxNorm(r, g, b))
            == (Norm(r), Norm(g), Norm(b))
  {
    HueBlue(r, g, b);
    assert MaxNorm(r, g, b) == Norm(b);
    if Norm(r) < Norm(g) {
      assert MinNorm(r, g, b) == Norm(r);
      RowFalling(3, Hue(r, g, b) / 60.0, MaxNorm(r, g, b), Delta(r, g, b), Norm(r) - Norm(g));
    } else {
      assert MinNorm(r, g, b) == Norm(g);
      RowRising(4, Hue(r, g, b) / 60.0, MaxNorm(r, g, b), Delta(r, g, b), Norm(r) - Norm(g));
    }
  }

  /** Over exact arithmetic `hsv_to_rgb` undoes `rgb_to_hsv` on every byte
      colour: the value recovers the brightest channel, the saturation the
      dimmest, and the hue the middle one. */
  lemma {:induction false} HsvRoundTrip(r: byte, g: byte, b: byte)
    ensures var c := RgbToHsv(r, g, b); HsvToRgb(c.h, c.s, c.v) == Rgb(r, g, b)
  {
    SaturationRange(r, g, b);
    HueRange(r, g, b);
    WrapHueInRange(Hue(r, g, b));
    assert Unit(MaxNorm(r, g, b) * 100.0) == MaxNorm(r, g, b);
    ScaleExact(r);
    ScaleExact(g);
    ScaleExact(b);
    if Delta(r, g, b) != 0.0 {
      if MaxNorm(r, g, b) == Norm(r) {
        RoundTripRed(r, g, b);
      } else if MaxNorm(r, g, b) == Norm(g) {
        RoundTripGreen(r, g, b);
      } else {
        RoundTripBlue(r, g, b);
      }
    }
  }

  // ---------------------------------------------------------------------
  // Hex strings

  /** Hex digits of a non-negative int, most significant first, lower case
      (`format(n, "x")`). */
  function HexDigits(n: nat): (d: string)
    ensures |d| >= 1
  {
    if n < 16 then [LowerHexDigit(n)] else HexDigits(n / 16) + [LowerHexDigit(n % 16)]
  }

  /** `format(n, "02x")`: zero-padded to two characters; a negative number
      keeps its sign in front. */
  function Hex02(n: int): string
  {
    if n < 0 then "-" + HexDigits(-n)
    else if n < 16 then "0" + HexDigits(n)
    else HexDigits(n)
  }

  /** `rgb_to_hex(r, g, b)`: `f"#{r:02x}{g:02x}{b:02x}".upper()`. */
  function RgbToHex(r: int, g: int, b: int): string
  {
    Upper("#" + Hex02(r) + Hex02(g) + Hex02(b))
  }

  /** The value of a string of hex digits. */
  function HexStringValue(t: string): nat
    requires forall i | 0 <= i < |t| :: IsHexChar(t[i])
  {
    if t == [] then 0 else HexStringValue(t[..|t| - 1]) * 16 + HexValue(t[|t| - 1])
  }

  /** `int(t, 16)` on a slice of at most two characters, for plain hex
      digits; anything else (including the empty slice) is an error. */
  function ParseHex(t: string): (n: Option<nat>)
    ensures n.Some? <==> |t| >= 1 && forall i | 0 <= i < |t| :: IsHexChar(t[i])
    ensures n.Some? && |t| <= 2 ==> n.value < 256
  {
    if |t| >= 1 && forall i | 0 <= i < |t| :: IsHexChar(t[i]) then
      if |t| <= 2 then TwoDigitsByte(t); Some(HexStringValue(t)) else Some(HexStringValue(t))
    else None
  }

  /** `hex_to_rgb(hex_color)`: strip every leading `#`, then parse the
      (clipped) slices [0:2], [2:4] and [4:6]; `None` where `int` raises. */
  function HexToRgb(hex: string): (c: Option<Rgb>)
    ensures c.Some? ==> IsByteColor(c.value)
  {
    var t := LStrip(hex, '#');
    var r, g, b := ParseHex(Slice(t, 0, 2)), ParseHex(Slice(t, 2, 4)), ParseHex(Slice(t, 4, 6));
    if r.Some? && g.Some? && b.Some? then Some(Rgb(r.value, g.value, b.value)) else None
  }

  lemma TwoDigitsByte(t: string)
    requires |t| <= 2 && forall i | 0 <= i < |t| :: IsHexChar(t[i])
    ensures HexStringValue(t) < 256
  {
    if |t| == 2 {
      assert t[..1][..0] == [];
    } else if |t| == 1 {
      assert t[..0] == [];
    }
  }

  predicate IsUpperHexChar(c: char)
  {
    '0' <= c <= '9' || 'A' <= c <= 'F'
  }

  /** The two characters `format(n, "02x")` gives for a byte. */
  lemma {:induction false} Hex02Byte(n: byte)
    ensures Hex02(n) == [LowerHexDigit(n / 16), LowerHexDigit(n % 16)]
  {
    if n >= 16 {
      assert HexDigits(n / 16) == [LowerHexDigit(n / 16)];
    }
  }

  lemma UpperHexDigit(v: nat)
    requires v < 16
    ensures IsUpperHexChar(UpperChar(LowerHexDigit(v)))
    ensures IsHexChar(UpperChar(LowerHexDigit(v)))
    ensures HexValue(UpperChar(LowerHexDigit(v))) == v
  {
  }

  /** For byte channels `rgb_to_hex` gives `#` and six upper-case hex
      digits, two per channel, most significant first. */
  lemma RgbToHexFormat(r: byte, g: byte, b: byte)
    ensures var s := RgbToHex(r, g, b);
      |s| == 7 && s[0] == '#' &&
      (forall i | 1 <= i < 7 :: IsUpperHexChar(s[i])) &&
      HexValue(s[1]) * 16 + HexValue(s[2]) == r &&
      HexValue(s[3]) * 16 + HexValue(s[4]) == g &&
      HexValue(s[5]) * 16 + HexValue(s[6]) == b
  {
    Hex02Byte(r);
    Hex02Byte(g);
    Hex02Byte(b);
    var raw := "#" + Hex02(r) + Hex02(g) + Hex02(b);
    assert raw == ['#', LowerHexDigit(r / 16), LowerHexDigit(r % 16), LowerHexDigit(g / 16),
                   LowerHexDigit(g % 16), LowerHexDigit(b / 16), LowerHexDigit(b % 16)];
    UpperHexDigit(r / 16);
    UpperHexDigit(r % 16);
    UpperHexDigit(g / 16);
    UpperHexDigit(g % 16);
    UpperHexDigit(b / 16);
    UpperHexDigit(b % 16);
  }

  lemma TwoHexValue(t: string)
    requires |t| == 2 && IsHexChar(t[0]) && IsHexChar(t[1])
    ensures HexStringValue(t) == HexValue(t[0]) * 16 + HexValue(t[1])
  {
    var first := t[..1];
    assert first[..0] == [] && first[0] == t[0];
    assert HexStringValue(first) == HexValue(t[0]);
    assert t[..|t| - 1] == first;
  }

  /** The slice `[i:i + 2]` of a string of hex digits parses as those two
      digits. */
  lemma PairValue(t: string, i: nat)
    requires i + 2 <= |t| && IsHexChar(t[i]) && IsHexChar(t[i + 1])
    ensures ParseHex(Slice(t, i, i + 2)) == Some(HexValue(t[i]) * 16 + HexValue(t[i + 1]))
  {
    var p := Slice(t, i, i + 2);
    assert p == t[i..i + 2] && p[0] == t[i] && p[1] == t[i + 1];
    TwoHexValue(p);
  }

  /** The channels `hex_to_rgb` reads from a `#` and six hex digits. */
  lemma HexToRgbSix(s: string)
    requires |s| == 7 && s[0] == '#' && forall i | 1 <= i < 7 :: IsHexChar(s[i])
    ensures HexToRgb(s) == Some(Rgb(HexValue(s[1]) * 16 + HexValue(s[2]),
                                    HexValue(s[3]) * 16 + HexValue(s[4]),
                                    HexValue(s[5]) * 16 + HexValue(s[6])))
  {
    var t := LStrip(s, '#');
    assert s[1] != '#';
    assert t == s[1..];
    PairValue(t, 0);
    PairValue(t, 2);
    PairValue(t, 4);
  }

  /** `hex_to_rgb` reads back every colour `rgb_to_hex` writes. */
  lemma HexRoundTrip(r: byte, g: byte, b: byte)
    ensures HexToRgb(RgbToHex(r, g, b)) == Some(Rgb(r, g, b))
  {
    var s := RgbToHex(r, g, b);
    assert |s| == 7 && s[0] == '#' && (forall i | 1 <= i < 7 :: IsHexChar(s[i])) &&
           HexValue(s[1]) * 16 + HexValue(s[2]) == r &&
           HexValue(s[3]) * 16 + HexValue(s[4]) == g &&
           HexValue(s[5]) * 16 + HexValue(s[6]) == b by {
      RgbToHexFormat(r, g, b);
      forall i | 1 <= i < 7 ensures IsHexChar(s[i]) {
        assert IsUpperHexChar(s[i]);
      }
    }
    HexToRgbSix(s);
  }

  /** Writing a digit's value back gives the digit, up to case. */
  lemma DigitCase(c: char)
    requires IsHexChar(c)
    ensures UpperChar(LowerHexDigit(HexValue(c))) == UpperChar(c)
  {
  }

  /** The two digits `format(n, "02x")` writes for the byte whose hex
      digits are `hi` and `lo` have the values of `hi` and `lo`. */
  lemma PairDigits(hi: char, lo: char, n: int)
    requires IsHexChar(hi) && IsHexChar(lo) && n == HexValue(hi) * 16 + HexValue(lo)
    ensures Hex02(n) == [LowerHexDigit(HexValue(hi)), LowerHexDigit(HexValue(lo))]
  {
    assert n / 16 == HexValue(hi) && n % 16 == HexValue(lo);
    Hex02Byte(n);
  }

  /** The pair `format(n, "02x")` writes for the byte whose digits are `hi`
      and `lo` is `hi` and `lo`, up to case. */
  lemma PairUpper(hi: char, lo: char, n: int)
    requires IsHexChar(hi) && IsHexChar(lo) && n == HexValue(hi) * 16 + HexValue(lo)
    ensures Upper(Hex02(n)) == Upper([hi, lo])
  {
    PairDigits(hi, lo, n);
    DigitCase(hi);
    DigitCase(lo);
  }

  /** `rgb_to_hex` of the channels read from a `#` and six hex digits
      writes those digits in upper case. */
  lemma RgbToHexOfDigits(s: string, r: int, g: int, b: int)
    requires |s| == 7 && s[0] == '#' && forall i | 1 <= i < 7 :: IsHexChar(s[i])
    requires r == HexValue(s[1]) * 16 + HexValue(s[2])
    requires g == HexValue(s[3]) * 16 + HexValue(s[4])
    requires b == HexValue(s[5]) * 16 + HexValue(s[6])
    ensures RgbToHex(r, g, b) == Upper(s)
  {
    assert s == "#" + [s[1], s[2]] + [s[3], s[4]] + [s[5], s[6]];
    UpperAppend("#", Hex02(r));
    UpperAppend("#" + Hex02(r), Hex02(g));
    UpperAppend("#" + Hex02(r) + Hex02(g), Hex02(b));
    UpperAppend("#", [s[1], s[2]]);
    UpperAppend("#" + [s[1], s[2]], [s[3], s[4]]);
    UpperAppend("#" + [s[1], s[2]] + [s[3], s[4]], [s[5], s[6]]);
    PairUpper(s[1], s[2], r);
    PairUpper(s[3], s[4], g);
    PairUpper(s[5], s[6], b);
  }

  /** Conversely, a `#` followed by six hex digits in either case comes back
      from `rgb_to_hex` as its upper-case form. */
  lemma HexRoundTripBack(s: string)
    requires |s| == 7 && s[0] == '#' && forall i | 1 <= i < 7 :: IsHexChar(s[i])
    ensures HexToRgb(s).Some?
    ensures var c := HexToRgb(s).value; RgbToHex(c.r, c.g, c.b) == Upper(s)
  {
    var r, g, b := HexValue(s[1]) * 16 + HexValue(s[2]), HexValue(s[3]) * 16 + HexValue(s[4]),
                   HexValue(s[5]) * 16 + HexValue(s[6]);
    HexToRgbSix(s);
    RgbToHexOfDigits(s, r, g, b);
  }

  /** Leading `#` characters are all stripped, however many there are. */
  lemma HexToRgbStripsHashes(s: string)
    ensures HexToRgb("#" + s) == HexToRgb(s)
  {
    assert ("#" + s)[1..] == s;
  }

  /** A five-digit string is accepted: its last slice is one digit wide. */
  lemma HexToRgbShort()
    ensures HexToRgb("#12345") == Some(Rgb(0x12, 0x34, 0x5))
  {
    var t := LStrip("#12345", '#');
    assert t == "12345" by {
      assert LStrip("12345", '#') == "12345";
    }
    ShortSlices(t);
  }

  /** The three slices of `12345`: two full pairs and a single digit. */
  lemma ShortSlices(t: string)
    requires t == "12345"
    ensures ParseHex(Slice(t, 0, 2)) == Some(0x12)
    ensures ParseHex(Slice(t, 2, 4)) == Some(0x34)
    ensures ParseHex(Slice(t, 4, 6)) == Some(0x5)
  {
    assert Slice(t, 0, 2) == "12";
    TwoHexValue("12");
    assert Slice(t, 2, 4) == "34";
    TwoHexValue("34");
    assert Slice(t, 4, 6) == "5";
    assert "5"[..0] == [];
  }

  /** `hsv_to_hex(h, s, v)`. */
  function HsvToHex(h: real, s: real, v: real): string
  {
    var c := HsvToRgb(h, s, v);
    RgbToHex(c.r, c.g, c.b)
  }

  /** `hex_to_hsv(hex)`; `None` where `hex_to_rgb` raises. */
  function HexToHsv(hex: string): Option<Hsv>
  {
    match HexToRgb(hex)
    case None => None
    case Some(c) => Some(RgbToHsv(c.r, c.g, c.b))
  }

  /** Going through HSV and back gives the upper-case form of any
      `#RRGGBB` string. */
  lemma HexHsvRoundTrip(s: string)
    requires |s| == 7 && s[0] == '#' && forall i | 1 <= i < 7 :: IsHexChar(s[i])
    ensures HexToHsv(s).Some?
    ensures var c := HexToHsv(s).value; HsvToHex(c.h, c.s, c.v) == Upper(s)
  {
    HexRoundTripBack(s);
    var c := HexToRgb(s).value;
    HsvRoundTrip(c.r, c.g, c.b);
  }

  /** Whatever the HSV input, `hsv_to_hex` writes a colour that `hex_to_hsv`
      reads back as the HSV of the truncated RGB colour. */
  lemma HsvHexRoundTrip(h: real, s: real, v: real)
    ensures var c := HsvToRgb(h, s, v);
      HexToHsv(HsvToHex(h, s, v)) == Some(RgbToHsv(c.r, c.g, c.b))
  {
    var c := HsvToRgb(h, s, v);
    HsvToRgbChannels(h, s, v);
    HexRoundTrip(c.r, c.g, c.b);
  }
}
