/** A colour selector: a hue/saturation square with a draggable button and a
    value slider, bound to an RGB colour. It works in HSV space and converts
    to and from RGB each frame. */
module ColorSelectors {
  import opened Options
  import opened Geometry
  import opened Events
  import opened Elements

  // ---------------------------------------------------------------------------
  // Conversions

  /** C's `fmodf` for a positive divisor: the remainder keeps the dividend's
      sign, because the quotient is truncated toward zero. */
  function CFmod(a: real, b: real): (r: real)
    requires b > 0.0
    ensures a >= 0.0 ==> 0.0 <= r < b
    ensures a < 0.0 ==> -b < r <= 0.0
  {
    var n := Trunc(a / b);
    FmodBounds(a, b, n);
    a - n as real * b
  }

  lemma FmodBounds(a: real, b: real, n: int)
    requires b > 0.0 && n == Trunc(a / b)
    ensures a >= 0.0 ==> 0.0 <= a - n as real * b < b
    ensures a < 0.0 ==> -b < a - n as real * b <= 0.0
  {
    var q := a / b;
    var nr := n as real;
    assert q * b == a;
    DivSign(a, b);
    if a >= 0.0 {
      ScaleAtLeast(a, b, q, nr);
      ScaleBelow(a, b, q, nr + 1.0);
      ShiftMul(nr, 1.0, b);
    } else {
      ScaleAbove(a, b, q, nr - 1.0);
      ScaleAtMost(a, b, q, nr);
      ShiftMul(nr, -1.0, b);
    }
  }

  lemma DivSign(a: real, b: real)
    requires b > 0.0
    ensures a >= 0.0 <==> a / b >= 0.0
  {
  }

  lemma ScaleBelow(a: real, b: real, q: real, y: real)
    requires b > 0.0 && q * b == a && q < y
    ensures a < y * b
  {
    PosMul(y - q, b);
    assert (y - q) * b == y * b - q * b;
  }

  lemma ScaleAtMost(a: real, b: real, q: real, y: real)
    requires b > 0.0 && q * b == a && q <= y
    ensures a <= y * b
  {
    if q < y { ScaleBelow(a, b, q, y); }
  }

  lemma ScaleAbove(a: real, b: real, q: real, y: real)
    requires b > 0.0 && q * b == a && y < q
    ensures y * b < a
  {
    PosMul(q - y, b);
    assert (q - y) * b == q * b - y * b;
  }

  lemma ScaleAtLeast(a: real, b: real, q: real, y: real)
    requires b > 0.0 && q * b == a && y <= q
    ensures y * b <= a
  {
    if y < q { ScaleAbove(a, b, q, y); }
  }

  lemma PosMul(x: real, b: real)
    requires x > 0.0 && b > 0.0
    ensures x * b > 0.0
  {
  }

  lemma ShiftMul(x: real, d: real, b: real)
    ensures (x + d) * b == x * b + d * b
  {
  }

  lemma MulMonoStrict(x: real, y: real, b: real)
    requires x < y && b > 0.0
    ensures x * b < y * b
  {
  }

  /** The remainder on the `k`-th period is the dividend less `k` divisors. */
  lemma FmodPeriod(a: real, b: real, k: nat)
    requires b > 0.0 && k as real * b <= a < (k as real + 1.0) * b
    ensures CFmod(a, b) == a - k as real * b
  {
    var q := a / b;
    var kr := k as real;
    assert q * b == a;
    assert kr <= q by {
      if q < kr { ScaleBelow(a, b, q, kr); }
    }
    assert q < kr + 1.0 by {
      if q >= kr + 1.0 { ScaleAtLeast(a, b, q, kr + 1.0); }
    }
    var n := Trunc(q);
    assert n == k;
  }

  /** The triangle wave 1 - |fmod(h2, 2) - 1| giving the middle channel's
      share of the chroma: 0 at even sector boundaries, 1 at odd ones. */
  function Wave(h2: real): (t: real)
    ensures h2 >= 0.0 ==> 0.0 <= t <= 1.0
  {
    1.0 - Abs(CFmod(h2, 2.0) - 1.0)
  }

  /** The wave in each sector of [0, 6). */
  lemma WaveBySector(h2: real)
    requires 0.0 <= h2 < 6.0
    ensures h2 < 1.0 ==> Wave(h2) == h2
    ensures 1.0 <= h2 < 2.0 ==> Wave(h2) == 2.0 - h2
    ensures 2.0 <= h2 < 3.0 ==> Wave(h2) == h2 - 2.0
    ensures 3.0 <= h2 < 4.0 ==> Wave(h2) == 4.0 - h2
    ensures 4.0 <= h2 < 5.0 ==> Wave(h2) == h2 - 4.0
    ensures 5.0 <= h2 ==> Wave(h2) == 6.0 - h2
  {
    var k := if h2 < 2.0 then 0 else if h2 < 4.0 then 1 else 2;
    FmodPeriod(h2, 2.0, k);
  }

  /** The channels of sector `h2` (hue / 60) from the chroma `c`, the middle
      channel `x` and the offset `m`; none past the sixth sector. */
  function SectorRgb(h2: real, c: real, x: real, m: real): (r: Option<Vec3>)
    ensures r.None? <==> h2 >= 6.0
  {
    if h2 < 1.0 then Some(Vec3(c + m, x + m, m))
    else if h2 < 2.0 then Some(Vec3(x + m, c + m, m))
    else if h2 < 3.0 then Some(Vec3(m, c + m, x + m))
    else if h2 < 4.0 then Some(Vec3(m, x + m, c + m))
    else if h2 < 5.0 then Some(Vec3(x + m, m, c + m))
    else if h2 < 6.0 then Some(Vec3(c + m, m, x + m))
    else None
  }

  function MaxChannel(v: Vec3): real { Max(Max(v.x, v.y), v.z) }
  function MinChannel(v: Vec3): real { Min(Min(v.x, v.y), v.z) }

  /** With the middle channel between 0 and the chroma, every sector's
      largest channel is `c + m` and its smallest `m`. */
  lemma SectorExtremes(h2: real, c: real, x: real, m: real)
    requires h2 < 6.0 && 0.0 <= x <= c
    ensures MaxChannel(SectorRgb(h2, c, x, m).value) == c + m
    ensures MinChannel(SectorRgb(h2, c, x, m).value) == m
  {
  }

  /** The chroma (value times saturation), the sector position (hue / 60)
      and the offset added to every channel. */
  function Chroma(hsv: Vec3): real { hsv.z * hsv.y }
  function SectorPos(hsv: Vec3): real { hsv.x / 60.0 }
  function Offset(hsv: Vec3): real { hsv.z - Chroma(hsv) }
  /** The middle channel: the wave's share of the chroma. */
  function Middle(hsv: Vec3): real { Chroma(hsv) * Wave(SectorPos(hsv)) }

  /** HSV to RGB through the six hue sectors. A hue of 360 degrees or more
      falls through every sector test and leaves the source's result
      uninitialised; that case is `None` here. */
  function HsvToRgb(hsv: Vec3): (r: Option<Vec3>)
    ensures r.None? <==> hsv.x >= 360.0
    ensures r.Some? && hsv.y == 0.0 ==> r.value == Vec3(hsv.z, hsv.z, hsv.z)
  {
    SectorRgb(SectorPos(hsv), Chroma(hsv), Middle(hsv), Offset(hsv))
  }

  /** A share in [0, 1] of a non-negative chroma is at most the chroma. */
  lemma ShareAtMost(c: real, t: real)
    requires 0.0 <= c && 0.0 <= t <= 1.0
    ensures c * t <= c
  {
    if c > 0.0 { assert (1.0 - t) * c >= 0.0; }
  }

  /** ... and at least 0. */
  lemma ShareAtLeast(c: real, t: real)
    requires 0.0 <= c && 0.0 <= t
    ensures 0.0 <= c * t
  {
    if c > 0.0 && t > 0.0 { PosMul(c, t); }
  }

  /** A share below 1 of a positive chroma is strictly below it. */
  lemma ShareBelow(c: real, t: real)
    requires 0.0 < c && t < 1.0
    ensures c * t < c
  {
    MulMonoStrict(t, 1.0, c);
  }

  /** The chroma of a non-negative value and saturation is non-negative,
      and positive when both are. */
  lemma ChromaSign(hsv: Vec3)
    requires 0.0 <= hsv.y && 0.0 <= hsv.z
    ensures 0.0 <= Chroma(hsv)
    ensures 0.0 < hsv.y && 0.0 < hsv.z ==> 0.0 < Chroma(hsv)
  {
    if 0.0 < hsv.y && 0.0 < hsv.z { PosMul(hsv.y, hsv.z); }
  }

  /** The middle channel lies between 0 and the chroma. */
  lemma MiddleBounds(hsv: Vec3)
    requires 0.0 <= hsv.x && 0.0 <= hsv.y && 0.0 <= hsv.z
    ensures 0.0 <= Middle(hsv) <= Chroma(hsv)
  {
    ChromaSign(hsv);
    MiddleAtMost(hsv);
    MiddleAtLeast(hsv);
  }

  lemma MiddleAtMost(hsv: Vec3)
    requires 0.0 <= Chroma(hsv) && 0.0 <= hsv.x
    ensures Middle(hsv) <= Chroma(hsv)
  {
    ShareAtMost(Chroma(hsv), Wave(SectorPos(hsv)));
  }

  lemma MiddleAtLeast(hsv: Vec3)
    requires 0.0 <= Chroma(hsv) && 0.0 <= hsv.x
    ensures 0.0 <= Middle(hsv)
  {
    ShareAtLeast(Chroma(hsv), Wave(SectorPos(hsv)));
  }

  /** A zero value gives black whatever the hue and saturation. */
  lemma ZeroValueIsBlack(hsv: Vec3)
    requires 0.0 <= hsv.x < 360.0 && hsv.z == 0.0
    ensures HsvToRgb(hsv) == Some(Vec3(0.0, 0.0, 0.0))
  {
    assert Chroma(hsv) == 0.0;
    assert Middle(hsv) == 0.0;
  }

  /** For a hue in [0, 360) and non-negative saturation and value, the
      largest channel is the value and the smallest is the offset, value
      times (1 - saturation). */
  lemma HsvChannelRange(hsv: Vec3)
    requires 0.0 <= hsv.x < 360.0 && 0.0 <= hsv.y && 0.0 <= hsv.z
    ensures HsvToRgb(hsv).Some?
    ensures MaxChannel(HsvToRgb(hsv).value) == hsv.z
    ensures MinChannel(HsvToRgb(hsv).value) == Offset(hsv)
  {
    MiddleBounds(hsv);
    SectorExtremes(SectorPos(hsv), Chroma(hsv), Middle(hsv), Offset(hsv));
    assert HsvToRgb(hsv) == SectorRgb(SectorPos(hsv), Chroma(hsv), Middle(hsv), Offset(hsv));
  }

  /** The hue term before scaling: 0 for a grey, otherwise the position
      within the largest channel's pair of sectors (red first, then green),
      offset so that the red case lands in [5, 7]. */
  function HueTerm(rgb: Vec3): (h: real)
    ensures MaxChannel(rgb) == MinChannel(rgb) ==> h == 0.0
    ensures MaxChannel(rgb) != MinChannel(rgb) ==> 1.0 <= h <= 7.0
  {
    var cMax := MaxChannel(rgb);
    var delta := cMax - MinChannel(rgb);
    if delta == 0.0 then 0.0
    else
      HueTermBounds(rgb, delta);
      if cMax == rgb.x then (rgb.y - rgb.z) / delta + 6.0
      else if cMax == rgb.y then (rgb.z - rgb.x) / delta + 2.0
      else (rgb.x - rgb.y) / delta + 4.0
  }

  /** Each channel difference is at most the spread, so each hue term lies
      within one sector of its base. */
  lemma HueTermBounds(rgb: Vec3, delta: real)
    requires delta == MaxChannel(rgb) - MinChannel(rgb) && delta != 0.0
    ensures -1.0 <= (rgb.y - rgb.z) / delta <= 1.0
    ensures -1.0 <= (rgb.z - rgb.x) / delta <= 1.0
    ensures -1.0 <= (rgb.x - rgb.y) / delta <= 1.0
  {
    RatioBounded(rgb.y - rgb.z, delta);
    RatioBounded(rgb.z - rgb.x, delta);
    RatioBounded(rgb.x - rgb.y, delta);
  }

  lemma RatioBounded(d: real, delta: real)
    requires delta > 0.0 && -delta <= d <= delta
    ensures -1.0 <= d / delta <= 1.0
  {
    var q := d / delta;
    assert q * delta == d;
    if q > 1.0 { MulMonoStrict(1.0, q, delta); }
    if q < -1.0 { MulMonoStrict(q, -1.0, delta); }
  }

  /** The saturation: the spread over the largest channel, 0 for black. */
  function Saturation(cMax: real, cMin: real): (s: real)
    ensures cMax == 0.0 ==> s == 0.0
    ensures cMax != 0.0 ==> s * cMax == cMax - cMin
    ensures 0.0 <= cMin <= cMax ==> 0.0 <= s <= 1.0
  {
    if cMax == 0.0 then 0.0
    else
      var s := (cMax - cMin) / cMax;
      assert 0.0 <= cMin <= cMax ==> 0.0 <= s <= 1.0 by {
        if 0.0 <= cMin <= cMax { RatioBounded(cMax - cMin, cMax); }
      }
      s
  }

  /** RGB to HSV: the value is the largest channel, the saturation the
      channel spread over it, and the hue is taken from whichever channel is
      largest. */
  function RgbToHsv(rgb: Vec3): (r: Vec3)
    ensures r.z >= rgb.x && r.z >= rgb.y && r.z >= rgb.z
    ensures r.z == rgb.x || r.z == rgb.y || r.z == rgb.z
    ensures r.z == 0.0 ==> r.y == 0.0
    ensures r.z != 0.0 ==> r.y * r.z == r.z - MinChannel(rgb)
    ensures 0.0 <= r.x < 360.0
    ensures rgb.x == rgb.y == rgb.z ==> r.x == 0.0 && r.y == 0.0
    ensures rgb.x >= 0.0 && rgb.y >= 0.0 && rgb.z >= 0.0 ==> 0.0 <= r.y <= 1.0
  {
    var h := HueTerm(rgb);
    Vec3(CFmod(60.0 * h, 360.0), Saturation(MaxChannel(rgb), MinChannel(rgb)), MaxChannel(rgb))
  }

  /** A quotient by the spread, given the spread and the dividend as a
      multiple of it. */
  lemma DivOf(d: real, delta: real, c: real, t: real)
    requires delta == c && c > 0.0 && d == c * t
    ensures d / delta == t
  {
  }

  /** Converting an HSV colour with a hue in [0, 360) and positive
      saturation and value to RGB and back gives the same colour. */
  lemma HsvRoundTrip(hsv: Vec3)
    requires 0.0 <= hsv.x < 360.0 && 0.0 < hsv.y && 0.0 < hsv.z
    ensures RgbToHsv(HsvToRgb(hsv).value) == hsv
  {
    ValueSaturationRoundTrip(hsv);
    HueBack(hsv);
  }

  /** The value and saturation halves of the round trip. */
  lemma ValueSaturationRoundTrip(hsv: Vec3)
    requires 0.0 <= hsv.x < 360.0 && 0.0 < hsv.y && 0.0 < hsv.z
    ensures RgbToHsv(HsvToRgb(hsv).value).z == hsv.z
    ensures RgbToHsv(HsvToRgb(hsv).value).y == hsv.y
  {
    HsvChannelRange(hsv);
    FromExtremes(HsvToRgb(hsv).value, hsv);
  }

  /** A colour whose largest channel is the value `hsv.z > 0` and smallest
      the offset converts to that value and saturation. */
  lemma FromExtremes(rgb: Vec3, hsv: Vec3)
    requires hsv.z > 0.0 && MaxChannel(rgb) == hsv.z && MinChannel(rgb) == Offset(hsv)
    ensures RgbToHsv(rgb).z == hsv.z && RgbToHsv(rgb).y == hsv.y
  {
    SaturationOf(hsv);
  }

  /** The saturation of a colour whose smallest channel is the offset is
      the saturation it was built from. */
  lemma SaturationOf(hsv: Vec3)
    requires hsv.z > 0.0
    ensures Saturation(hsv.z, Offset(hsv)) == hsv.y
  {
    var r := Saturation(hsv.z, Offset(hsv));
    assert r * hsv.z == hsv.z - Offset(hsv);
    assert hsv.z - Offset(hsv) == Chroma(hsv);
    CancelMul(r, hsv.y, hsv.z);
  }

  /** The hue half of the round trip. */
  lemma HueBack(hsv: Vec3)
    requires 0.0 <= hsv.x < 360.0 && 0.0 < hsv.y && 0.0 < hsv.z
    ensures RgbToHsv(HsvToRgb(hsv).value).x == hsv.x
  {
    ChromaSign(hsv);
    HueRoundTrip(SectorPos(hsv), Chroma(hsv), Middle(hsv), Offset(hsv));
    FromHueTerm(HsvToRgb(hsv).value, hsv.x);
  }

  /** A colour whose hue term places it at `h` degrees converts to hue `h`. */
  lemma FromHueTerm(rgb: Vec3, h: real)
    requires 0.0 <= h < 360.0
    requires h / 60.0 < 1.0 ==> HueTerm(rgb) == h / 60.0 + 6.0
    requires h / 60.0 == 1.0 ==> HueTerm(rgb) == 7.0
    requires h / 60.0 > 1.0 ==> HueTerm(rgb) == h / 60.0
    ensures RgbToHsv(rgb).x == h
  {
    HueScaled(h, HueTerm(rgb));
  }

  /** Scaling the hue term back to degrees and reducing it modulo 360
      recovers the hue it was computed from. */
  lemma HueScaled(h: real, hh: real)
    requires 0.0 <= h < 360.0
    requires h / 60.0 < 1.0 ==> hh == h / 60.0 + 6.0
    requires h / 60.0 == 1.0 ==> hh == 7.0
    requires h / 60.0 > 1.0 ==> hh == h / 60.0
    ensures CFmod(60.0 * hh, 360.0) == h
  {
    if h / 60.0 <= 1.0 {
      FmodPeriod(60.0 * hh, 360.0, 1);
    } else {
      FmodPeriod(60.0 * hh, 360.0, 0);
    }
  }

  lemma CancelMul(a: real, b: real, c: real)
    requires c > 0.0 && a * c == c * b
    ensures a == b
  {
    if a < b { MulMonoStrict(a, b, c); }
    if b < a { MulMonoStrict(b, a, c); }
  }

  /** The hue half of the round trip, sector by sector: the hue term is
      `h2` itself, `h2 + 6` in the first sector, and 7 rather than 1 at the
      red/green tie on the boundary of the first two. */
  lemma HueRoundTrip(h2: real, c: real, x: real, m: real)
    requires 0.0 <= h2 < 6.0 && c > 0.0 && x == c * Wave(h2)
    ensures var hh := HueTerm(SectorRgb(h2, c, x, m).value);
      if h2 < 1.0 then hh == h2 + 6.0
      else if h2 == 1.0 then hh == 7.0
      else hh == h2
  {
    if h2 < 1.0 {
      WaveBySector(h2);
      RedRising(c, x, m, Wave(h2));
    } else if h2 < 2.0 {
      SectorHue1(h2, c, x, m);
    } else if h2 < 3.0 {
      SectorHue2(h2, c, x, m);
    } else if h2 < 4.0 {
      SectorHue3(h2, c, x, m);
    } else if h2 < 5.0 {
      SectorHue4(h2, c, x, m);
    } else {
      SectorHue5(h2, c, x, m);
    }
  }

  /** The hue term sector by sector, from the wave's value there. */
  lemma SectorHue1(h2: real, c: real, x: real, m: real)
    requires 1.0 <= h2 < 2.0 && c > 0.0 && x == c * Wave(h2)
    ensures h2 == 1.0 ==> HueTerm(SectorRgb(h2, c, x, m).value) == 7.0
    ensures h2 > 1.0 ==> HueTerm(SectorRgb(h2, c, x, m).value) == h2
  {
    WaveBySector(h2);
    GreenFalling(c, x, m, Wave(h2));
  }

  lemma SectorHue2(h2: real, c: real, x: real, m: real)
    requires 2.0 <= h2 < 3.0 && c > 0.0 && x == c * Wave(h2)
    ensures HueTerm(SectorRgb(h2, c, x, m).value) == h2
  {
    WaveBySector(h2);
    GreenRising(c, x, m, Wave(h2));
  }

  lemma SectorHue3(h2: real, c: real, x: real, m: real)
    requires 3.0 <= h2 < 4.0 && c > 0.0 && x == c * Wave(h2)
    ensures HueTerm(SectorRgb(h2, c, x, m).value) == h2
  {
    WaveBySector(h2);
    BlueFalling(c, x, m, Wave(h2));
  }

  lemma SectorHue4(h2: real, c: real, x: real, m: real)
    requires 4.0 <= h2 < 5.0 && c > 0.0 && x == c * Wave(h2)
    ensures HueTerm(SectorRgb(h2, c, x, m).value) == h2
  {
    WaveBySector(h2);
    BlueRising(c, x, m, Wave(h2));
  }

  lemma SectorHue5(h2: real, c: real, x: real, m: real)
    requires 5.0 <= h2 < 6.0 && c > 0.0 && x == c * Wave(h2)
    ensures HueTerm(SectorRgb(h2, c, x, m).value) == h2
  {
    WaveBySector(h2);
    RedFalling(c, x, m, Wave(h2));
  }

  /** The middle channel `x = c * t` of a share `t` below 1 lies in [0, c). */
  lemma MiddleBelow(c: real, x: real, t: real)
    requires c > 0.0 && x == c * t && 0.0 <= t < 1.0
    ensures 0.0 <= x < c
  {
    ShareAtLeast(c, t);
    ShareBelow(c, t);
  }

  /** Red largest, green rising with the share: the hue term is `t + 6`. */
  lemma RedRising(c: real, x: real, m: real, t: real)
    requires c > 0.0 && x == c * t && 0.0 <= t < 1.0
    ensures HueTerm(Vec3(c + m, x + m, m)) == t + 6.0
  {
    MiddleBelow(c, x, t);
    var rgb := Vec3(c + m, x + m, m);
    assert MaxChannel(rgb) == c + m && MinChannel(rgb) == m;
    DivOf(rgb.y - rgb.z, MaxChannel(rgb) - MinChannel(rgb), c, t);
  }

  /** Green largest, red falling with the share: the hue term is `2 - t`,
      except at the tie `t = 1`, where red wins and it is 7. */
  lemma GreenFalling(c: real, x: real, m: real, t: real)
    requires c > 0.0 && x == c * t && 0.0 <= t <= 1.0
    ensures t < 1.0 ==> HueTerm(Vec3(x + m, c + m, m)) == 2.0 - t
    ensures t == 1.0 ==> HueTerm(Vec3(x + m, c + m, m)) == 7.0
  {
    var rgb := Vec3(x + m, c + m, m);
    if t < 1.0 {
      MiddleBelow(c, x, t);
      assert MaxChannel(rgb) == c + m && MinChannel(rgb) == m;
      DivOf(rgb.z - rgb.x, MaxChannel(rgb) - MinChannel(rgb), c, -t);
    } else {
      assert MaxChannel(rgb) == c + m && MinChannel(rgb) == m;
      DivOf(rgb.y - rgb.z, MaxChannel(rgb) - MinChannel(rgb), c, 1.0);
    }
  }

  /** Green largest, blue rising with the share: the hue term is `t + 2`. */
  lemma GreenRising(c: real, x: real, m: real, t: real)
    requires c > 0.0 && x == c * t && 0.0 <= t < 1.0
    ensures HueTerm(Vec3(m, c + m, x + m)) == t + 2.0
  {
    MiddleBelow(c, x, t);
    var rgb := Vec3(m, c + m, x + m);
    assert MaxChannel(rgb) == c + m && MinChannel(rgb) == m;
    DivOf(rgb.z - rgb.x, MaxChannel(rgb) - MinChannel(rgb), c, t);
  }

  /** Blue largest, green falling with the share: the hue term is `4 - t`,
      except at the tie `t = 1`, where green wins and it is 3. */
  lemma BlueFalling(c: real, x: real, m: real, t: real)
    requires c > 0.0 && x == c * t && 0.0 < t <= 1.0
    ensures t < 1.0 ==> HueTerm(Vec3(m, x + m, c + m)) == 4.0 - t
    ensures t == 1.0 ==> HueTerm(Vec3(m, x + m, c + m)) == 3.0
  {
    var rgb := Vec3(m, x + m, c + m);
    if t < 1.0 {
      MiddleBelow(c, x, t);
      assert MaxChannel(rgb) == c + m && MinChannel(rgb) == m;
      DivOf(rgb.x - rgb.y, MaxChannel(rgb) - MinChannel(rgb), c, -t);
    } else {
      assert MaxChannel(rgb) == c + m && MinChannel(rgb) == m;
      DivOf(rgb.z - rgb.x, MaxChannel(rgb) - MinChannel(rgb), c, 1.0);
    }
  }

  /** Blue largest, red rising with the share: the hue term is `t + 4`. */
  lemma BlueRising(c: real, x: real, m: real, t: real)
    requires c > 0.0 && x == c * t && 0.0 <= t < 1.0
    ensures HueTerm(Vec3(x + m, m, c + m)) == t + 4.0
  {
    MiddleBelow(c, x, t);
    var rgb := Vec3(x + m, m, c + m);
    assert MaxChannel(rgb) == c + m && MinChannel(rgb) == m;
    DivOf(rgb.x - rgb.y, MaxChannel(rgb) - MinChannel(rgb), c, t);
  }

  /** Red largest, blue falling with the share: the hue term is `6 - t`
      (red also wins the tie `t = 1`). */
  lemma RedFalling(c: real, x: real, m: real, t: real)
    requires c > 0.0 && x == c * t && 0.0 < t <= 1.0
    ensures HueTerm(Vec3(c + m, m, x + m)) == 6.0 - t
  {
    var rgb := Vec3(c + m, m, x + m);
    if t < 1.0 {
      MiddleBelow(c, x, t);
    }
    assert MaxChannel(rgb) == c + m && MinChannel(rgb) == m;
    DivOf(rgb.y - rgb.z, MaxChannel(rgb) - MinChannel(rgb), c, -t);
  }

  // ---------------------------------------------------------------------------
  // The selector's frame

  /** The selector's state: the HSV colour it holds, whether its button is
      being dragged, and the value handed to the value slider. */
  datatype SelectorState = SelectorState(hsv: Vec3, moving: bool, value: real)

  const NewSelectorState := SelectorState(Vec3(0.5, 0.5, 1.0), false, 1.0)

  const MinHue := 0.001
  const MaxHue := 359.9
  const MinSat := 0.001
  const MaxSat := 0.999

  /** Hue and saturation are kept off the edges of their ranges. */
  function ClampHueSat(hs: Vec2): (r: Vec2)
    ensures MinHue <= r.x <= MaxHue && MinSat <= r.y <= MaxSat
    ensures MinHue <= hs.x <= MaxHue ==> r.x == hs.x
    ensures MinSat <= hs.y <= MaxSat ==> r.y == hs.y
  {
    Vec2(Min(Max(hs.x, MinHue), MaxHue), Min(Max(hs.y, MinSat), MaxSat))
  }

  /** Hue and saturation in the clamped range always select a sector. */
  predicate InClampRange(hsv: Vec3) {
    MinHue <= hsv.x <= MaxHue && MinSat <= hsv.y <= MaxSat
  }

  /** The hue and saturation under the cursor: across the square the hue runs
      from 0 to 360 left to right and the saturation from 0 to 1 (the cursor's
      y axis is flipped against the layout's). */
  function DragHueSat(mouse: Vec2, selPos: Vec2, selSize: Vec2): Vec2 {
    Vec2((SafeDiv(mouse.x - selPos.x, selSize.x) + 0.5) * 360.0,
         -SafeDiv(mouse.y + selPos.y, selSize.y) + 0.5)
  }

  /** Where the button sits inside the square for the current colour. */
  function ButtonCoords(hsv: Vec3): (Coordinate, Coordinate) {
    (Coordinate(RelativePos, hsv.x / 360.0, CenterCenter), Coordinate(RelativePos, hsv.y, CenterCenter))
  }

  /** Dragging the button onto where it is drawn reads back the hue and
      saturation it was placed for. */
  lemma DragAtButtonReadsBack(hsv: Vec3, selPos: Vec2, selSize: Vec2, buttonSize: Vec2)
    requires selSize.x != 0.0 && selSize.y != 0.0
    ensures var (cx, cy) := ButtonCoords(hsv);
      var b := ElementPos(cx, cy, selPos, selSize, buttonSize);
      DragHueSat(Vec2(b.x, -b.y), selPos, selSize) == Vec2(hsv.x, hsv.y)
  {
    var (cx, cy) := ButtonCoords(hsv);
    var b := ElementPos(cx, cy, selPos, selSize, buttonSize);
    assert b.x - selPos.x == selSize.x * (hsv.x / 360.0 - 0.5);
    assert -b.y + selPos.y == -(selSize.y * (hsv.y - 0.5));
  }

  /** The part of the frame before the children update: the drag flag
      follows the button, the bound colour is read back into HSV (black keeps
      the previous hue and saturation), the button is placed, the slider is
      handed the value, and hue and saturation come from the cursor while
      dragging an active selector. `selPos` and `selSize` are the square's
      rectangle from the previous frame. */
  function SelectorPre(st: SelectorState, selected: Vec3, inp: Input, active: bool, selPos: Vec2, selSize: Vec2)
    : (r: (SelectorState, (Coordinate, Coordinate)))
    ensures InClampRange(r.0.hsv)
    ensures r.0.moving <==> (IsHovered(inp.mousePos, selPos, selSize) && PressEdge(inp)) || (st.moving && inp.pressed)
    ensures selected == Vec3(0.0, 0.0, 0.0) ==> r.0.hsv.z == 0.0 && r.0.value == 0.0 && r.1 == ButtonCoords(st.hsv)
    ensures selected != Vec3(0.0, 0.0, 0.0) ==>
      r.0.hsv.z == RgbToHsv(selected).z && r.0.value == r.0.hsv.z && r.1 == ButtonCoords(RgbToHsv(selected))
    ensures !(r.0.moving && active) ==>
      var read := if selected == Vec3(0.0, 0.0, 0.0) then st.hsv else RgbToHsv(selected);
      Vec2(r.0.hsv.x, r.0.hsv.y) == ClampHueSat(Vec2(read.x, read.y))
    ensures r.0.moving && active ==>
      Vec2(r.0.hsv.x, r.0.hsv.y) == ClampHueSat(DragHueSat(inp.mousePos, selPos, selSize))
  {
    var moving0 := if !inp.pressed then false else st.moving;
    var moving := if IsHovered(inp.mousePos, selPos, selSize) && PressEdge(inp) then true else moving0;
    var hsv0 := if selected == Vec3(0.0, 0.0, 0.0) then st.hsv.(z := 0.0) else RgbToHsv(selected);
    var hs := if moving && active then DragHueSat(inp.mousePos, selPos, selSize) else Vec2(hsv0.x, hsv0.y);
    var hs1 := ClampHueSat(hs);
    (SelectorState(Vec3(hs1.x, hs1.y, hsv0.z), moving, hsv0.z), ButtonCoords(hsv0))
  }

  /** The part of the frame after the children update: the value comes from
      the slider (`sliderValue`, the value after its update) while it is
      being dragged, and the bound colour is written from the HSV colour. The
      clamp guarantees a sector is taken. */
  function SelectorPost(st: SelectorState, sliderMoving: bool, sliderValue: real, active: bool): (r: (SelectorState, Vec3))
    requires InClampRange(st.hsv)
    ensures HsvToRgb(r.0.hsv) == Some(r.1)
    ensures r.0.hsv.z == (if sliderMoving && active then sliderValue else st.hsv.z)
    ensures r.0 == st.(hsv := r.0.hsv, value := sliderValue)
    ensures r.0.hsv.z >= 0.0 ==> MaxChannel(r.1) == r.0.hsv.z
  {
    var v := if sliderMoving && active then sliderValue else st.hsv.z;
    var hsv := st.hsv.(z := v);
    assert v >= 0.0 ==> MaxChannel(HsvToRgb(hsv).value) == v by {
      if v >= 0.0 { HsvChannelRange(hsv); }
    }
    (st.(hsv := hsv, value := sliderValue), HsvToRgb(hsv).value)
  }

  /** An idle frame (no press, the slider left alone) reproduces a colour the
      selector wrote, whatever its state held before. */
  lemma IdleFrameKeepsColour(st: SelectorState, hsv: Vec3, inp: Input, active: bool, selPos: Vec2, selSize: Vec2)
    requires InClampRange(hsv) && hsv.z > 0.0 && !inp.pressed
    ensures var rgb := HsvToRgb(hsv).value;
      var (st1, _) := SelectorPre(st, rgb, inp, active, selPos, selSize);
      st1.hsv == hsv && SelectorPost(st1, false, st1.value, active).1 == rgb
  {
    var rgb := HsvToRgb(hsv).value;
    HsvRoundTrip(hsv);
    HsvChannelRange(hsv);
    assert rgb != Vec3(0.0, 0.0, 0.0);
  }

  /** Black is a fixed point: its value is 0 so it converts back to black,
      and the hue and saturation the selector had are kept. */
  lemma BlackStaysBlack(st: SelectorState, inp: Input, active: bool, selPos: Vec2, selSize: Vec2)
    requires !inp.pressed
    ensures var (st1, _) := SelectorPre(st, Vec3(0.0, 0.0, 0.0), inp, active, selPos, selSize);
      Vec2(st1.hsv.x, st1.hsv.y) == ClampHueSat(Vec2(st.hsv.x, st.hsv.y)) &&
      SelectorPost(st1, false, st1.value, active).1 == Vec3(0.0, 0.0, 0.0)
  {
    var (st1, _) := SelectorPre(st, Vec3(0.0, 0.0, 0.0), inp, active, selPos, selSize);
    ZeroValueIsBlack(st1.hsv);
  }
}
