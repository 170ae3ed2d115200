/**
 * The hexcone HSV to RGB conversion of the colour picker (`hsv_to_rgb`),
 * over exact reals and scaled to the 0..255 channel range.
 */
module Hsv {

  /** Python's `int(x)` on a float: truncation toward zero. */
  function Trunc(x: real): (n: int)
    ensures x >= 0.0 ==> n as real <= x < n as real + 1.0
    ensures x < 0.0 ==> n as real - 1.0 < x <= n as real
  {
    if x >= 0.0 then x.Floor else -((-x).Floor)
  }

  /** The hue sector `int(6h) % 6`; Python's `%` by a positive modulus is never negative. */
  function Sector(h: real): (i: int)
    ensures 0 <= i < 6
    ensures h >= 0.0 ==> i == (h * 6.0).Floor % 6
  {
    Trunc(h * 6.0) % 6
  }

  /** The position `f = 6h - int(6h)` of the hue inside its sector. */
  function Frac(h: real): (f: real)
    ensures h >= 0.0 ==> 0.0 <= f < 1.0
    ensures h < 0.0 ==> -1.0 < f <= 0.0
  {
    h * 6.0 - Trunc(h * 6.0) as real
  }

  /** An RGB triple of real channel values, as `hsv_to_rgb` returns it. */
  datatype Rgb = Rgb(r: real, g: real, b: real)

  function Max(a: real, b: real): real { if a < b then b else a }
  function Min(a: real, b: real): real { if a < b then a else b }

  function MaxChannel(c: Rgb): real { Max(c.r, Max(c.g, c.b)) }
  function MinChannel(c: Rgb): real { Min(c.r, Min(c.g, c.b)) }

  /** The sector table: which of the terms p, q, t, u goes to which channel in sector `i`. */
  function SectorTable(i: int, p: real, q: real, t: real, u: real): Rgb
    requires 0 <= i < 6
  {
    if i == 0 then Rgb(u, t, p)
    else if i == 1 then Rgb(q, u, p)
    else if i == 2 then Rgb(p, u, t)
    else if i == 3 then Rgb(p, q, u)
    else if i == 4 then Rgb(t, p, u)
    else Rgb(u, p, q)
  }

  /** `c` has a channel equal to `x`. */
  predicate HasChannel(c: Rgb, x: real) { c.r == x || c.g == x || c.b == x }

  /**
   * `hsv_to_rgb`: u = 255v, p = 255v(1 - s), q and t move between them with
   * the hue fraction. Every sector puts u on one channel and p on another, and
   * without saturation all three channels are 255v.
   */
  function HsvToRgb(h: real, s: real, v: real): (c: Rgb)
    ensures HasChannel(c, High(v)) && HasChannel(c, Low(s, v))
    ensures s == 0.0 ==> c == Rgb(High(v), High(v), High(v))
  {
    var f := Frac(h);
    var p := 255.0 * (v * (1.0 - s));
    var q := 255.0 * (v * (1.0 - s * f));
    var t := 255.0 * (v * (1.0 - s * (1.0 - f)));
    var u := v * 255.0;
    SectorTable(Sector(h), p, q, t, u)
  }

  /** Lowest channel the conversion can produce. */
  function Low(s: real, v: real): real { 255.0 * (v * (1.0 - s)) }

  /** Highest channel the conversion can produce. */
  function High(v: real): real { v * 255.0 }

  predicate InUnit(x: real) { 0.0 <= x <= 1.0 }

  predicate Between(x: real, lo: real, hi: real) { lo <= x <= hi }

  lemma MulNonNeg(a: real, b: real)
    requires a >= 0.0 && b >= 0.0
    ensures a * b >= 0.0
  {
  }

  lemma MulMono(a: real, b: real, c: real)
    requires a >= 0.0 && b <= c
    ensures a * b <= a * c
  {
    MulNonNeg(a, c - b);
  }

  /** A product of two unit values is a unit value no larger than either factor's bound. */
  lemma UnitProduct(s: real, a: real)
    requires InUnit(s) && InUnit(a)
    ensures 0.0 <= s * a <= s
  {
    MulMono(s, a, 1.0);
    MulNonNeg(s, a);
  }

  /** A term 255v(1 - s·a) with a in [0, 1] lies between p and u. */
  lemma ScaledTerm(s: real, v: real, a: real)
    requires InUnit(s) && InUnit(v) && InUnit(a)
    ensures Between(255.0 * (v * (1.0 - s * a)), Low(s, v), High(v))
    ensures 0.0 <= Low(s, v) && High(v) <= 255.0
  {
    var sa := s * a;
    UnitProduct(s, a);
    var x := 1.0 - sa;
    assert 1.0 - s <= x <= 1.0;
    MulMono(v, 1.0 - s, x);
    MulMono(v, x, 1.0);
    MulNonNeg(v, 1.0 - s);
    assert v * (1.0 - s) <= v * x <= v;
    assert Low(s, v) <= 255.0 * (v * x) <= High(v);
  }

  /** Every channel of a sector's triple is one of its four terms. */
  lemma TableBetween(i: int, p: real, q: real, t: real, u: real, lo: real, hi: real)
    requires 0 <= i < 6
    requires Between(p, lo, hi) && Between(q, lo, hi) && Between(t, lo, hi) && Between(u, lo, hi)
    ensures var c := SectorTable(i, p, q, t, u);
      Between(c.r, lo, hi) && Between(c.g, lo, hi) && Between(c.b, lo, hi)
  {
  }

  /** All four terms of a sector lie between p and u when the fraction lies in [0, 1). */
  lemma TermsBetween(s: real, v: real, f: real)
    requires InUnit(s) && InUnit(v) && 0.0 <= f < 1.0
    ensures var lo, hi := Low(s, v), High(v);
      && Between(255.0 * (v * (1.0 - s)), lo, hi)
      && Between(255.0 * (v * (1.0 - s * f)), lo, hi)
      && Between(255.0 * (v * (1.0 - s * (1.0 - f))), lo, hi)
      && Between(v * 255.0, lo, hi)
      && 0.0 <= lo <= hi <= 255.0
  {
    ScaledTerm(s, v, f);
    ScaledTerm(s, v, 1.0 - f);
    assert Between(255.0 * (v * (1.0 - s)), Low(s, v), High(v)) by { ScaledTerm(s, v, 1.0); }
    assert Between(v * 255.0, Low(s, v), High(v)) by { ScaledTerm(s, v, 0.0); }
  }

  /** For a non-negative hue every channel lies between 255v(1 - s) and 255v, hence in [0, 255]. */
  lemma HsvBounds(h: real, s: real, v: real)
    requires h >= 0.0 && InUnit(s) && InUnit(v)
    ensures var c := HsvToRgb(h, s, v);
      Between(c.r, Low(s, v), High(v)) && Between(c.g, Low(s, v), High(v))
      && Between(c.b, Low(s, v), High(v))
    ensures 0.0 <= Low(s, v) <= High(v) <= 255.0
  {
    var f := Frac(h);
    TermsBetween(s, v, f);
    TableBetween(Sector(h), 255.0 * (v * (1.0 - s)), 255.0 * (v * (1.0 - s * f)),
      255.0 * (v * (1.0 - s * (1.0 - f))), v * 255.0, Low(s, v), High(v));
  }

  /** Every sector's triple holds both u and p: the largest channel is 255v, the smallest 255v(1 - s). */
  lemma HsvExtremes(h: real, s: real, v: real)
    requires h >= 0.0 && InUnit(s) && InUnit(v)
    ensures MaxChannel(HsvToRgb(h, s, v)) == High(v)
    ensures MinChannel(HsvToRgb(h, s, v)) == Low(s, v)
  {
    HsvBounds(h, s, v);
  }

  /** With no saturation all four terms coincide, so every sector yields a grey. */
  lemma HsvGrey(h: real, v: real)
    ensures var c := HsvToRgb(h, 0.0, v);
      c.r == c.g == c.b == 255.0 * v
  {
  }

  /** Hue 0 at full saturation and value is pure red. */
  lemma HsvRed()
    ensures HsvToRgb(0.0, 1.0, 1.0) == Rgb(255.0, 0.0, 0.0)
  {
  }

  /** For non-negative hues the conversion has period 1. */
  lemma HsvPeriodic(h: real, s: real, v: real)
    requires h >= 0.0
    ensures HsvToRgb(h + 1.0, s, v) == HsvToRgb(h, s, v)
  {
    var x := h * 6.0;
    assert (h + 1.0) * 6.0 == x + 6.0;
    assert Trunc(x + 6.0) == Trunc(x) + 6;
    assert Frac(h + 1.0) == Frac(h);
    assert Sector(h + 1.0) == Sector(h);
  }

  /** Remainder of `x` by 6, in [0, 6). */
  function Mod6(x: real): (m: real)
    ensures 0.0 <= m < 6.0
  {
    x - 6.0 * (x / 6.0).Floor as real
  }

  function Clamp01(x: real): real
  {
    if x < 0.0 then 0.0 else if x > 1.0 then 1.0 else x
  }

  /**
   * Channel `n` (5 for red, 3 for green, 1 for blue) of the closed-form
   * hexcone formula 255(v - v·s·clamp(min(k, 4 - k))) with k = (n + 6h) mod 6:
   * a description of the conversion that uses no sector table.
   */
  function Channel(n: int, h: real, s: real, v: real): real
  {
    var k := Mod6(n as real + 6.0 * h);
    255.0 * (v * (1.0 - s * Clamp01(Min(k, 4.0 - k))))
  }

  lemma Mod6Split(m: int, f: real)
    requires 0.0 <= f < 1.0
    ensures Mod6(m as real + f) == (m % 6) as real + f
  {
    var q := m / 6;
    var r := m % 6;
    assert m == 6 * q + r;
    var y := (m as real + f) / 6.0;
    assert y == q as real + (r as real + f) / 6.0;
    assert 0.0 <= (r as real + f) / 6.0 < 1.0;
    assert y.Floor == q;
  }

  /** The term a channel takes when its offset k = j + f falls in unit interval j. */
  lemma ChannelAt(j: int, f: real, s: real, v: real, n: int, h: real)
    requires 0 <= j < 6 && 0.0 <= f < 1.0
    requires Mod6(n as real + 6.0 * h) == j as real + f
    ensures j == 0 ==> Channel(n, h, s, v) == 255.0 * (v * (1.0 - s * f))
    ensures (j == 1 || j == 2) ==> Channel(n, h, s, v) == 255.0 * (v * (1.0 - s))
    ensures j == 3 ==> Channel(n, h, s, v) == 255.0 * (v * (1.0 - s * (1.0 - f)))
    ensures (j == 4 || j == 5) ==> Channel(n, h, s, v) == v * 255.0
  {
  }

  /**
   * The sector table, read channel by channel: in sector i, channel n takes
   * the term of unit interval (n + i) % 6 of the closed-form description.
   */
  lemma TableByOffsets(i: int, p: real, q: real, t: real, u: real, red: real, green: real, blue: real)
    requires 0 <= i < 6
    requires Offset(5, i, p, q, t, u, red) && Offset(3, i, p, q, t, u, green) && Offset(1, i, p, q, t, u, blue)
    ensures SectorTable(i, p, q, t, u) == Rgb(red, green, blue)
  {
  }

  /** The term `c` is the one unit interval (n + i) % 6 of the closed-form description selects. */
  predicate Offset(n: int, i: int, p: real, q: real, t: real, u: real, c: real)
  {
    var j := (n + i) % 6;
    && (j == 0 ==> c == q)
    && (j == 1 || j == 2 ==> c == p)
    && (j == 3 ==> c == t)
    && (j == 4 || j == 5 ==> c == u)
  }

  /** The sector table agrees, for every non-negative hue, with the closed-form channel formula. */
  lemma HsvMatchesChannels(h: real, s: real, v: real)
    requires h >= 0.0
    ensures HsvToRgb(h, s, v) == Rgb(Channel(5, h, s, v), Channel(3, h, s, v), Channel(1, h, s, v))
  {
    var x := h * 6.0;
    var i0 := x.Floor;
    var f := Frac(h);
    assert f == x - i0 as real;
    var i := Sector(h);
    assert i == i0 % 6;
    var p := 255.0 * (v * (1.0 - s));
    var q := 255.0 * (v * (1.0 - s * f));
    var t := 255.0 * (v * (1.0 - s * (1.0 - f)));
    var u := v * 255.0;
    assert HsvToRgb(h, s, v) == SectorTable(i, p, q, t, u);
    ChannelIn(5, i0, f, s, v, h);
    ChannelIn(3, i0, f, s, v, h);
    ChannelIn(1, i0, f, s, v, h);
    TableByOffsets(i, p, q, t, u, Channel(5, h, s, v), Channel(3, h, s, v), Channel(1, h, s, v));
  }

  /** The closed-form channel `n` takes the term of unit interval (n + int(6h)) % 6. */
  lemma ChannelIn(n: int, i0: int, f: real, s: real, v: real, h: real)
    requires 0.0 <= f < 1.0 && 6.0 * h == i0 as real + f
    ensures Offset(n, i0 % 6, 255.0 * (v * (1.0 - s)), 255.0 * (v * (1.0 - s * f)),
      255.0 * (v * (1.0 - s * (1.0 - f))), v * 255.0, Channel(n, h, s, v))
  {
    assert n as real + 6.0 * h == (n + i0) as real + f;
    Mod6Split(n + i0, f);
    assert (n + i0) % 6 == (n + i0 % 6) % 6;
    ChannelAt((n + i0) % 6, f, s, v, n, h);
  }
}
