/**
 * The older picker module `chromatics.py`. It differs from the reference in
 * the sector dispatch of `generate_colormap`, whose second branch repeats the
 * test `i == 0`: in hue sector 1 no branch is taken and no cell is written.
 * The conversion, spectrum, queue and colormap selection are the same code
 * as the reference and are shared with the Chromatics module.
 */
module Legacy {
  import opened Wrappers
  import opened Hsv
  import opened Pixels
  import opened Geometry
  import opened Chromatics

  /** The legacy sector dispatch; `None` when every branch is skipped. */
  function LegacyTable(i: int, p: real, q: real, t: real, u: real): Option<Rgb>
  {
    if i == 0 then Some(Rgb(u, t, p))
    else if i == 0 then Some(Rgb(q, u, p))
    else if i == 2 then Some(Rgb(p, u, t))
    else if i == 3 then Some(Rgb(p, q, u))
    else if i == 4 then Some(Rgb(t, p, u))
    else if i == 5 then Some(Rgb(u, p, q))
    else None
  }

  /** What the legacy fill computes for cell (x, y), if anything. */
  function LegacyCellRgb(hue: real, w: int, h: int, x: int, y: int): Option<Rgb>
    requires w > 0 && h > 0
  {
    var s := x as real * (1.0 / w as real);
    var v := (h - y) as real * (1.0 / h as real);
    var f := Frac(hue);
    var p := 255.0 * (v * (1.0 - s));
    var q := 255.0 * (v * (1.0 - s * f));
    var t := 255.0 * (v * (1.0 - s * (1.0 - f)));
    var u := v * 255.0;
    LegacyTable(Sector(hue), p, q, t, u)
  }

  /**
   * Cell (x, y) after the legacy fill: the computed colour, or the previous
   * cell when nothing is written. It is the reference cell outside sector 1
   * and the previous cell inside it.
   */
  function LegacyCell(hue: real, w: int, h: int, x: int, y: int, prev: Grid): (c: Pixel)
    requires w > 0 && h > 0 && IsGrid(prev, w, h) && 0 <= x < w && 0 <= y < h
    ensures Sector(hue) == 1 ==> c == prev[x][y]
    ensures Sector(hue) != 1 ==> c == Cell(hue, w, h, x, y)
  {
    match LegacyCellRgb(hue, w, h, x, y)
    case Some(c) => Store(c)
    case None => prev[x][y]
  }

  /** The legacy colormap fill over the existing array `prev`. */
  function LegacyColormap(hue: real, w: nat, h: nat, prev: Grid): (g: Grid)
    requires w > 0 && h > 0 && IsGrid(prev, w, h)
    ensures IsGrid(g, w, h)
    ensures forall x, y :: 0 <= x < w && 0 <= y < h ==>
      g[x][y] == (if Sector(hue) == 1 then prev[x][y] else Cell(hue, w, h, x, y))
  {
    seq(w, x requires 0 <= x < w => seq(h, y requires 0 <= y < h => LegacyCell(hue, w, h, x, y, prev)))
  }

  /** The legacy `generate_colormap((deg, 1.0, 1.0))`: the hue is always stored, the cells maybe not. */
  function GenerateColormap(st: State, deg: int): (r: State)
    requires WellFormed(st)
    ensures WellFormed(r)
    ensures r.hue == deg as real / 360.0
    ensures r == st.(hue := r.hue, colormap := r.colormap)
  {
    var hue := deg as real / 360.0;
    var w, h := st.layout.colormapArea.w, st.layout.colormapArea.h;
    st.(hue := hue, colormap := LegacyColormap(hue, w, h, st.colormap))
  }

  /** The legacy `init`: the colormap is filled over a fresh, black array. */
  function Init(c: Config): (r: Option<State>)
    ensures r.Some? <==> ConfigOk(c)
    ensures r.Some? ==> WellFormed(r.value)
  {
    if !ConfigOk(c) then None
    else
      var st := GenerateColormap(Prepared(c), DefaultHue);
      Some(st.(selection := Point(c.colormapSize.w - 100, c.colormapSize.h - 100)))
  }

  /** The legacy `select_spectrum`, which regenerates through the legacy fill. */
  function SelectSpectrum(st: State, pos: Point): (r: Step)
    requires WellFormed(st)
    ensures WellFormed(r.state)
    ensures r.reply == Changed && r.state.hue == pos.x as real / 360.0
    ensures r.state.rects == st.rects + [st.layout.colormapArea] && r.state.pending
    ensures r.state.(hue := st.hue, colormap := st.colormap, rects := st.rects, pending := st.pending) == st
  {
    var st1 := GenerateColormap(st, pos.x);
    Step(Queue(st1, st.layout.colormapArea), Changed)
  }

  /**
   * The legacy `interact`. Its `select_colormap` is the reference code; its
   * `select_colorselect` swallows clipboard failures, which the model does not
   * see in either variant, but not a failure to read the colour.
   */
  function Interact(st: State, pos: Point): (r: Option<Step>)
    requires WellFormed(st)
    ensures r.Some? ==> WellFormed(r.value.state)
    ensures !CollidePoint(st.layout.spectrumArea, pos) ==> r == Chromatics.Interact(st, pos)
    ensures CollidePoint(st.layout.spectrumArea, pos) ==> r.Some? && r.value.reply == Changed
  {
    var l := st.layout;
    if CollidePoint(l.spectrumArea, pos) then Some(SelectSpectrum(st, pos))
    else if CollidePoint(l.colormapArea, pos) then Some(SelectColormap(st, pos))
    else if CollidePoint(l.colorselectArea, pos) then
      match SelectColorselect(st)
      case None => None
      case Some(st1) => Some(Step(st1, Unchanged))
    else Some(Step(st, Unchanged))
  }

  // ---------------------------------------------------------------------------
  // Properties

  /** The legacy dispatch skips exactly sector 1 and otherwise picks the reference table's triple. */
  lemma LegacyTableSkipsSectorOne(i: int, p: real, q: real, t: real, u: real)
    requires 0 <= i < 6
    ensures LegacyTable(i, p, q, t, u).None? <==> i == 1
    ensures i != 1 ==> LegacyTable(i, p, q, t, u) == Some(SectorTable(i, p, q, t, u))
  {
  }

  /** For whole-degree hues, sector 1 is exactly the degrees 60 up to 120 of each turn. */
  lemma SectorOneDegrees(deg: int)
    requires deg >= 0
    ensures Sector(deg as real / 360.0) == 1 <==> 60 <= deg % 360 < 120
  {
    var x := deg as real / 360.0 * 6.0;
    assert x == deg as real / 60.0;
    var k := deg / 60;
    assert deg == 60 * k + deg % 60;
    assert k as real <= x < k as real + 1.0;
    assert x.Floor == k;
    assert Sector(deg as real / 360.0) == k % 6;
    assert deg % 360 == 60 * (k % 6) + deg % 60 by {
      assert k == 6 * (k / 6) + k % 6;
      assert deg == 360 * (k / 6) + (60 * (k % 6) + deg % 60);
    }
  }

  /** In sector 1 the legacy fill leaves the array exactly as it was; only the hue changes. */
  lemma SectorOneKeepsGrid(st: State, deg: int)
    requires WellFormed(st) && Sector(deg as real / 360.0) == 1
    ensures GenerateColormap(st, deg) == st.(hue := deg as real / 360.0)
  {
    var r := GenerateColormap(st, deg);
    var w, h := st.layout.colormapArea.w, st.layout.colormapArea.h;
    forall x | 0 <= x < w
      ensures r.colormap[x] == st.colormap[x]
    {
      forall y | 0 <= y < h
        ensures r.colormap[x][y] == st.colormap[x][y]
      {
        CellSkipped(deg as real / 360.0, w, h, x, y);
      }
    }
  }

  lemma CellSkipped(hue: real, w: int, h: int, x: int, y: int)
    requires w > 0 && h > 0 && Sector(hue) == 1
    ensures LegacyCellRgb(hue, w, h, x, y).None?
  {
  }

  lemma CellAgrees(hue: real, w: int, h: int, x: int, y: int)
    requires w > 0 && h > 0 && Sector(hue) != 1
    ensures LegacyCellRgb(hue, w, h, x, y) == Some(HsvToRgb(hue, x as real * (1.0 / w as real), (h - y) as real * (1.0 / h as real)))
  {
  }

  /** Outside sector 1 the legacy fill is the reference fill: every cell is rewritten with `hsv_to_rgb`. */
  lemma OtherSectorsAgree(st: State, deg: int)
    requires WellFormed(st) && Sector(deg as real / 360.0) != 1
    ensures GenerateColormap(st, deg) == Chromatics.GenerateColormap(st, deg)
  {
    var hue := deg as real / 360.0;
    var r := GenerateColormap(st, deg);
    var w, h := st.layout.colormapArea.w, st.layout.colormapArea.h;
    forall x | 0 <= x < w
      ensures r.colormap[x] == Column(hue, w, h, x)
    {
      forall y | 0 <= y < h
        ensures r.colormap[x][y] == Cell(hue, w, h, x, y)
      {
        CellAgrees(hue, w, h, x, y);
      }
    }
  }

  /** The legacy `init` (hue 240, sector 4) yields the same state as the reference `init`. */
  lemma InitAgrees(c: Config)
    ensures Init(c) == Chromatics.Init(c)
  {
    if ConfigOk(c) {
      assert Sector(DefaultHue as real / 360.0) == 4 by {
        SectorOneDegrees(DefaultHue);
        assert DefaultHue as real / 360.0 * 6.0 == 4.0;
      }
      OtherSectorsAgree(Prepared(c), DefaultHue);
    }
  }

  /** Except for spectrum clicks in sector 1, the legacy `interact` behaves as the reference. */
  lemma InteractAgrees(st: State, pos: Point)
    requires WellFormed(st)
    requires CollidePoint(st.layout.spectrumArea, pos) ==> Sector(pos.x as real / 360.0) != 1
    ensures Interact(st, pos) == Chromatics.Interact(st, pos)
  {
    if CollidePoint(st.layout.spectrumArea, pos) {
      OtherSectorsAgree(st, pos.x);
    }
  }

  /**
   * A spectrum click in sector 1 still returns True, stores the hue and
   * queues the colormap area, but leaves the colormap array untouched.
   */
  lemma InteractSectorOne(st: State, pos: Point)
    requires WellFormed(st) && CollidePoint(st.layout.spectrumArea, pos)
    requires Sector(pos.x as real / 360.0) == 1
    ensures var r := Interact(st, pos);
      && r.Some? && r.value.reply == Changed
      && r.value.state == st.(hue := pos.x as real / 360.0,
                              rects := st.rects + [st.layout.colormapArea], pending := true)
  {
    SectorOneKeepsGrid(st, pos.x);
  }

  /**
   * The defect on the default picker: a click at x = 90 on the spectrum
   * stores hue 90 degrees, but the colormap still shows 240 degrees, so the
   * array no longer matches the stored hue; the reference keeps them matched.
   */
  lemma StaleColormap()
    ensures Init(DefaultConfig).Some?
    ensures var st := Init(DefaultConfig).value;
      var n := Interact(st, Point(90, 330)).value.state;
      && n.hue == 0.25
      && n.colormap[299][0] != Colormap(0.25, 300, 300)[299][0]
      && !GridMatchesHue(n)
      && GridMatchesHue(Chromatics.Interact(st, Point(90, 330)).value.state)
  {
    InitAgrees(DefaultConfig);
    var st := Init(DefaultConfig).value;
    assert st.layout.spectrumArea == Rect(0, 320, 360, 40);
    assert st.layout.colormapArea == Rect(10, 10, 300, 300);
    assert Sector(90 as real / 360.0) == 1 by {
      SectorOneDegrees(90);
    }
    InteractSectorOne(st, Point(90, 330));
    var n := Interact(st, Point(90, 330)).value.state;
    assert n.colormap == st.colormap;
    assert st.colormap == Colormap(2.0 / 3.0, 300, 300);
    StaleCell();
  }

  /** Cell (299, 0) at 240 degrees has red 0; at 90 degrees it has red 127. */
  lemma StaleCell()
    ensures Colormap(2.0 / 3.0, 300, 300)[299][0].r == 0
    ensures Colormap(0.25, 300, 300)[299][0].r == 127
  {
    var s := 299.0 * (1.0 / 300.0);
    assert Sector(2.0 / 3.0) == 4 && Frac(2.0 / 3.0) == 0.0 by {
      assert 2.0 / 3.0 * 6.0 == 4.0;
    }
    assert Sector(0.25) == 1 && Frac(0.25) == 0.5 by {
      assert 0.25 * 6.0 == 1.5;
    }
    assert Cell(2.0 / 3.0, 300, 300, 299, 0).r == ToByte(255.0 * (1.0 * (1.0 - s * (1.0 - 0.0))));
    assert 255.0 * (1.0 * (1.0 - s * (1.0 - 0.0))) == 0.85;
    assert Cell(0.25, 300, 300, 299, 0).r == ToByte(255.0 * (1.0 * (1.0 - s * 0.5)));
    assert 255.0 * (1.0 * (1.0 - s * 0.5)) == 127.925;
  }
}
