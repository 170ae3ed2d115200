/**
 * The colour picker of `chromatics/chromatics.py`: a hue spectrum, a
 * saturation/value colormap at the chosen hue, a selected cell, and the
 * queue of display rectangles waiting to be presented.
 */
module Chromatics {
  import opened Wrappers
  import opened Hsv
  import opened Pixels
  import opened Geometry

  datatype Size = Size(w: int, h: int)

  /** The keyword arguments of `init`. */
  datatype Config = Config(
    displaySize: Size,
    spectrumSize: Size,
    colormapSize: Size,
    spectrumPos: Point,
    colormapPos: Point)

  const DefaultConfig := Config(Size(360, 360), Size(360, 40), Size(300, 300), Point(0, 320), Point(10, 10))

  /** Hue in degrees the colormap is first generated with. */
  const DefaultHue := 240

  /** Side of the square swatch showing the selected colour. */
  const SwatchSide := 30

  /** Where the parts of the picker sit on its display surface, fixed by `init`. */
  datatype Layout = Layout(
    width: int,
    height: int,
    spectrumArea: Rect,
    colormapArea: Rect,
    colorselectArea: Rect)

  /** The rectangle of the whole display surface. */
  function DisplayArea(l: Layout): Rect
  {
    Rect(0, 0, l.width, l.height)
  }

  /**
   * The picker's state: its layout, the spectrum and colormap arrays, the
   * colormap's hue (a fraction of a full turn), the selected colormap cell,
   * the rectangles queued for the next present and the "needs present" flag.
   */
  datatype State = State(
    layout: Layout,
    spectrum: Grid,
    colormap: Grid,
    hue: real,
    selection: Point,
    rects: seq<Rect>,
    pending: bool)

  /** What `interact` returns: True, the selected colour, or False. */
  datatype Reply = Changed | Picked(color: Pixel) | Unchanged

  datatype Step = Step(state: State, reply: Reply)

  // ---------------------------------------------------------------------------
  // Generation of the spectrum and colormap arrays

  /** The colour of spectrum column `x`: hue x/360 at full saturation and value. */
  function SpectrumPixel(x: int): Pixel
  {
    Store(HsvToRgb(x as real / 360.0, 1.0, 1.0))
  }

  /** A pure hue: one channel at full intensity and one at zero. */
  predicate PureHue(p: Pixel)
  {
    (p.r == 255 || p.g == 255 || p.b == 255) && (p.r == 0 || p.g == 0 || p.b == 0)
  }

  /**
   * The spectrum array: every row of column `x` holds that column's colour,
   * and every pixel is a pure hue.
   */
  function Spectrum(w: nat, h: nat): (g: Grid)
    ensures IsGrid(g, w, h)
    ensures forall x, y :: 0 <= x < w && 0 <= y < h ==> PureHue(g[x][y]) && g[x][y] == g[x][0]
  {
    assert forall x :: PureHue(SpectrumPixel(x)) by {
      forall x
        ensures PureHue(SpectrumPixel(x))
      {
        SpectrumPixelPure(x);
      }
    }
    seq(w, x => seq(h, y => SpectrumPixel(x)))
  }

  /** Every spectrum colour `hsv_to_rgb(x/360, 1, 1)` is a pure hue. */
  lemma SpectrumPixelPure(x: int)
    ensures PureHue(SpectrumPixel(x))
  {
    var hue := x as real / 360.0;
    var c := HsvToRgb(hue, 1.0, 1.0);
    assert c.r == 255.0 || c.g == 255.0 || c.b == 255.0;
    assert c.r == 0.0 || c.g == 0.0 || c.b == 0.0;
    assert ToByte(255.0) == 255 && ToByte(0.0) == 0;
  }

  /**
   * The colour of colormap cell (x, y) at hue `hue`: saturation grows to the
   * right in steps of 1/w, value shrinks downward from 1 in steps of 1/h.
   */
  function Cell(hue: real, w: int, h: int, x: int, y: int): Pixel
    requires w > 0 && h > 0
  {
    var s := x as real * (1.0 / w as real);
    var v := (h - y) as real * (1.0 / h as real);
    Store(HsvToRgb(hue, s, v))
  }

  function Column(hue: real, w: int, h: nat, x: int): seq<Pixel>
    requires w > 0 && h > 0
  {
    seq(h, y => Cell(hue, w, h, x, y))
  }

  /**
   * The colormap array generated for hue `hue`: cell (x, y) is the stored
   * `hsv_to_rgb` at saturation x/w and value (h - y)/h.
   */
  function Colormap(hue: real, w: nat, h: nat): (g: Grid)
    requires w > 0 && h > 0
    ensures IsGrid(g, w, h)
    ensures forall x, y :: 0 <= x < w && 0 <= y < h ==>
      g[x][y] == Store(HsvToRgb(hue, x as real / w as real, (h - y) as real / h as real))
  {
    assert forall x, y :: 0 <= x < w && 0 <= y < h ==>
      Cell(hue, w, h, x, y) == Store(HsvToRgb(hue, x as real / w as real, (h - y) as real / h as real)) by {
      forall x, y | 0 <= x < w && 0 <= y < h
        ensures Cell(hue, w, h, x, y) == Store(HsvToRgb(hue, x as real / w as real, (h - y) as real / h as real))
      {
        CellFormula(hue, w, h, x, y);
      }
    }
    seq(w, x => Column(hue, w, h, x))
  }

  /** The colormap fill as the source performs it: column by column, row by row. */
  method FillColormap(hue: real, w: nat, h: nat) returns (g: Grid)
    requires w > 0 && h > 0
    ensures g == Colormap(hue, w, h)
  {
    g := [];
    var x := 0;
    while x < w
      invariant 0 <= x <= w
      invariant |g| == x
      invariant forall a :: 0 <= a < x ==> g[a] == Column(hue, w, h, a)
    {
      var col := [];
      var y := 0;
      while y < h
        invariant 0 <= y <= h
        invariant |col| == y
        invariant forall b :: 0 <= b < y ==> col[b] == Cell(hue, w, h, x, b)
      {
        col := col + [Cell(hue, w, h, x, y)];
        y := y + 1;
      }
      assert col == Column(hue, w, h, x);
      g := g + [col];
      x := x + 1;
    }
    assert forall a :: 0 <= a < w ==> g[a] == Colormap(hue, w, h)[a];
  }

  /** A cell is `hsv_to_rgb` at saturation x/w and value (h - y)/h, stored as bytes. */
  lemma CellFormula(hue: real, w: int, h: int, x: int, y: int)
    requires w > 0 && h > 0
    ensures Cell(hue, w, h, x, y) == Store(HsvToRgb(hue, x as real / w as real, (h - y) as real / h as real))
  {
    assert x as real * (1.0 / w as real) == x as real / w as real;
    assert (h - y) as real * (1.0 / h as real) == (h - y) as real / h as real;
  }

  // ---------------------------------------------------------------------------
  // Well-formed states

  /**
   * What `init` establishes and every operation keeps: positive colormap
   * size, a generated spectrum, a colormap array of the colormap's size, the
   * swatch in the top-right corner, and a non-empty queue only while the
   * "needs present" flag is set.
   */
  predicate WellFormed(st: State)
  {
    var l := st.layout;
    && l.width >= 0 && l.height >= 0
    && l.spectrumArea.w >= 0 && l.spectrumArea.h >= 0
    && l.colormapArea.w > 0 && l.colormapArea.h > 0
    && l.colorselectArea == Rect(l.width - 40, 10, SwatchSide, SwatchSide)
    && st.spectrum == Spectrum(l.spectrumArea.w, l.spectrumArea.h)
    && IsGrid(st.colormap, l.colormapArea.w, l.colormapArea.h)
    && (|st.rects| > 0 ==> st.pending)
  }

  /** The colormap array is the one generated for the stored hue. */
  predicate GridMatchesHue(st: State)
    requires WellFormed(st)
  {
    st.colormap == Colormap(st.hue, st.layout.colormapArea.w, st.layout.colormapArea.h)
  }

  predicate Valid(st: State)
  {
    WellFormed(st) && GridMatchesHue(st)
  }

  /** The selection names a cell of the colormap directly, without negative indexing. */
  predicate SelectionInGrid(st: State)
  {
    0 <= st.selection.x < st.layout.colormapArea.w && 0 <= st.selection.y < st.layout.colormapArea.h
  }

  // ---------------------------------------------------------------------------
  // Initialisation

  /** The sizes `init` accepts: no negative surface size, and no zero colormap side (it divides by both). */
  predicate ConfigOk(c: Config)
  {
    && c.displaySize.w >= 0 && c.displaySize.h >= 0
    && c.spectrumSize.w >= 0 && c.spectrumSize.h >= 0
    && c.colormapSize.w > 0 && c.colormapSize.h > 0
  }

  /** `generate_colormap((deg, 1.0, 1.0))`: the hue becomes deg/360 and the whole array is rewritten. */
  function GenerateColormap(st: State, deg: int): (r: State)
    requires WellFormed(st)
    ensures WellFormed(r) && GridMatchesHue(r)
    ensures r.hue == deg as real / 360.0
    ensures r == st.(hue := r.hue, colormap := r.colormap)
  {
    var hue := deg as real / 360.0;
    st.(hue := hue, colormap := Colormap(hue, st.layout.colormapArea.w, st.layout.colormapArea.h))
  }

  /** The state after the surfaces are set up and the spectrum is generated, before the colormap is. */
  function Prepared(c: Config): (st: State)
    requires ConfigOk(c)
    ensures WellFormed(st)
    ensures st.layout.spectrumArea == Rect(c.spectrumPos.x, c.spectrumPos.y, c.spectrumSize.w, c.spectrumSize.h)
    ensures st.layout.colormapArea == Rect(c.colormapPos.x, c.colormapPos.y, c.colormapSize.w, c.colormapSize.h)
    ensures st.layout.colorselectArea == Rect(c.displaySize.w - 40, 10, SwatchSide, SwatchSide)
    ensures st.layout.width == c.displaySize.w && st.layout.height == c.displaySize.h
    ensures st.rects == [] && !st.pending
  {
    var layout := Layout(
      c.displaySize.w, c.displaySize.h,
      Rect(c.spectrumPos.x, c.spectrumPos.y, c.spectrumSize.w, c.spectrumSize.h),
      Rect(c.colormapPos.x, c.colormapPos.y, c.colormapSize.w, c.colormapSize.h),
      Rect(c.displaySize.w - 40, 10, SwatchSide, SwatchSide));
    State(layout, Spectrum(c.spectrumSize.w, c.spectrumSize.h),
      Blank(c.colormapSize.w, c.colormapSize.h), 0.0, Point(0, 0), [], false)
  }

  /**
   * `init`: fails when a surface size is negative or a colormap side is
   * zero; otherwise the colormap is generated at 240 degrees and the
   * selection set 100 cells in from the bottom-right corner.
   */
  function Init(c: Config): (r: Option<State>)
    ensures r.Some? <==> ConfigOk(c)
    ensures r.Some? ==> Valid(r.value)
    ensures r.Some? ==> r.value.selection == Point(c.colormapSize.w - 100, c.colormapSize.h - 100)
    ensures r.Some? ==> r.value.hue == 2.0 / 3.0 && r.value.rects == [] && !r.value.pending
    ensures r.Some? ==> r.value.layout == Layout(
      c.displaySize.w, c.displaySize.h,
      Rect(c.spectrumPos.x, c.spectrumPos.y, c.spectrumSize.w, c.spectrumSize.h),
      Rect(c.colormapPos.x, c.colormapPos.y, c.colormapSize.w, c.colormapSize.h),
      Rect(c.displaySize.w - 40, 10, SwatchSide, SwatchSide))
  {
    if !ConfigOk(c) then None
    else
      var st := GenerateColormap(Prepared(c), DefaultHue);
      Some(st.(selection := Point(c.colormapSize.w - 100, c.colormapSize.h - 100)))
  }

  // ---------------------------------------------------------------------------
  // Reading the selected colour

  /** Python indexing of a sequence of length n: negative indices count from the end. */
  function PyIndex(k: int, n: nat): (r: Option<nat>)
    ensures r.Some? <==> -(n as int) <= k < n
    ensures r.Some? ==> r.value < n && (r.value == k || r.value == k + n)
  {
    if 0 <= k < n then Some(k)
    else if -(n as int) <= k < 0 then Some(k + n)
    else None
  }

  /** `get_colorvalue`: the selected cell of the colormap array; `None` is the IndexError. */
  function GetColorValue(st: State): (r: Option<Pixel>)
    requires WellFormed(st)
    ensures SelectionInGrid(st) ==> r == Some(st.colormap[st.selection.x][st.selection.y])
    ensures r.Some? <==>
      -st.layout.colormapArea.w <= st.selection.x < st.layout.colormapArea.w
      && -st.layout.colormapArea.h <= st.selection.y < st.layout.colormapArea.h
    ensures r.Some? ==>
      var x, y := st.selection.x, st.selection.y;
      var w, h := st.layout.colormapArea.w, st.layout.colormapArea.h;
      r.value == st.colormap[if x < 0 then x + w else x][if y < 0 then y + h else y]
  {
    var w, h := st.layout.colormapArea.w, st.layout.colormapArea.h;
    match (PyIndex(st.selection.x, w), PyIndex(st.selection.y, h))
    case (Some(x), Some(y)) => Some(st.colormap[x][y])
    case _ => None
  }

  // ---------------------------------------------------------------------------
  // The dirty-rectangle queue

  /** Queues one rectangle for the next present and raises the flag. */
  function Queue(st: State, r: Rect): State
  {
    st.(rects := st.rects + [r], pending := true)
  }

  /** `display_spectrum`: the spectrum is drawn aligned to the display's bottom-right corner. */
  function DisplaySpectrum(st: State): (r: State)
    requires WellFormed(st)
    ensures WellFormed(r)
    ensures r.pending && |r.rects| == |st.rects| + 1 && r.rects[..|st.rects|] == st.rects
    ensures r.(rects := st.rects, pending := st.pending) == st
    ensures var l := st.layout;
      forall p :: CollidePoint(r.rects[|st.rects|], p) <==>
        CollidePoint(DisplayArea(l), p) && l.width - l.spectrumArea.w <= p.x && l.height - l.spectrumArea.h <= p.y
  {
    var l := st.layout;
    var dest := Rect(l.width - l.spectrumArea.w, l.height - l.spectrumArea.h, l.spectrumArea.w, l.spectrumArea.h);
    Queue(st, Clip(dest, DisplayArea(l)))
  }

  /** `display_colormap`: the colormap is drawn at the colormap area's corner. */
  function DisplayColormap(st: State): (r: State)
    requires WellFormed(st)
    ensures WellFormed(r)
    ensures r.pending && |r.rects| == |st.rects| + 1 && r.rects[..|st.rects|] == st.rects
    ensures r.(rects := st.rects, pending := st.pending) == st
    ensures forall p :: CollidePoint(r.rects[|st.rects|], p) <==>
      CollidePoint(st.layout.colormapArea, p) && CollidePoint(DisplayArea(st.layout), p)
  {
    var l := st.layout;
    Queue(st, Clip(l.colormapArea, DisplayArea(l)))
  }

  /** The rectangle the swatch surface covers once drawn at the colour-select area's corner. */
  function SwatchRect(l: Layout): Rect
  {
    Clip(Rect(l.colorselectArea.x, l.colorselectArea.y, SwatchSide, SwatchSide), DisplayArea(l))
  }

  /** `display_colorselect`: reads the selected colour (which can fail) and queues the swatch. */
  function DisplayColorselect(st: State): (r: Option<State>)
    requires WellFormed(st)
    ensures r.Some? <==> GetColorValue(st).Some?
    ensures r.Some? ==> WellFormed(r.value)
    ensures r.Some? ==> r.value.pending && r.value.rects == st.rects + [SwatchRect(st.layout)]
    ensures r.Some? ==> r.value.(rects := st.rects, pending := st.pending) == st
  {
    if GetColorValue(st).Some? then Some(Queue(st, SwatchRect(st.layout))) else None
  }

  /** `display_colorvalue`: the text readout raises the flag but queues no rectangle. */
  function DisplayColorvalue(st: State): (r: Option<State>)
    requires WellFormed(st)
    ensures r.Some? <==> GetColorValue(st).Some?
    ensures r.Some? ==> WellFormed(r.value)
    ensures r.Some? ==> r.value.pending && r.value.rects == st.rects && r.value.(pending := st.pending) == st
  {
    if GetColorValue(st).Some? then Some(st.(pending := true)) else None
  }

  /** `display`: spectrum, colormap, swatch and readout, in that order. */
  function Display(st: State): (r: Option<State>)
    requires WellFormed(st)
    ensures r.Some? <==> GetColorValue(st).Some?
    ensures r.Some? ==> WellFormed(r.value)
    ensures r.Some? ==>
      r.value.pending && |r.value.rects| == |st.rects| + 3 && r.value.rects[..|st.rects|] == st.rects
    ensures r.Some? ==> r.value.(rects := st.rects, pending := st.pending) == st
  {
    var s2 := DisplayColormap(DisplaySpectrum(st));
    assert GetColorValue(s2) == GetColorValue(st);
    match DisplayColorselect(s2)
    case None => None
    case Some(s3) => DisplayColorvalue(s3)
  }

  /** `refresh`: queue the whole display area. */
  function Refresh(st: State): (r: State)
    requires WellFormed(st)
    ensures WellFormed(r)
    ensures r.rects == st.rects + [Rect(0, 0, st.layout.width, st.layout.height)] && r.pending
    ensures r.(rects := st.rects, pending := st.pending) == st
  {
    Queue(st, DisplayArea(st.layout))
  }

  /** `update`: when the flag is set the queue is presented and emptied and the flag cleared. */
  function Update(st: State): (r: State)
    requires WellFormed(st)
    ensures WellFormed(r)
    ensures r.rects == [] && !r.pending
    ensures !st.pending ==> r == st
    ensures r.(rects := st.rects, pending := st.pending) == st
  {
    if st.pending then st.(rects := [], pending := false) else st
  }

  // ---------------------------------------------------------------------------
  // Interaction

  /**
   * `select_spectrum`: the absolute x coordinate of the click is the new hue
   * in degrees; the colormap is regenerated and its area queued.
   */
  function SelectSpectrum(st: State, pos: Point): (r: Step)
    requires WellFormed(st)
    ensures WellFormed(r.state) && GridMatchesHue(r.state)
    ensures r.reply == Changed && r.state.hue == pos.x as real / 360.0
    ensures r.state.rects == st.rects + [st.layout.colormapArea] && r.state.pending
    ensures r.state.(hue := st.hue, colormap := st.colormap, rects := st.rects, pending := st.pending) == st
  {
    var st1 := GenerateColormap(st, pos.x);
    Step(Queue(st1, st.layout.colormapArea), Changed)
  }

  /**
   * `select_colormap`: the selection becomes the click's offset inside the
   * colormap area, the swatch is queued, and the selected cell is returned.
   */
  function SelectColormap(st: State, pos: Point): (r: Step)
    requires WellFormed(st) && CollidePoint(st.layout.colormapArea, pos)
    ensures WellFormed(r.state) && SelectionInGrid(r.state)
    ensures r.state.selection == Point(pos.x - st.layout.colormapArea.x, pos.y - st.layout.colormapArea.y)
    ensures r.reply.Picked? && GetColorValue(r.state) == Some(r.reply.color)
    ensures r.state.rects == st.rects + [SwatchRect(st.layout)] && r.state.pending
    ensures r.state.(selection := st.selection, rects := st.rects, pending := st.pending) == st
  {
    var area := st.layout.colormapArea;
    var sel := Point(pos.x - area.x, pos.y - area.y);
    var st1 := st.(selection := sel);
    Step(Queue(st1, SwatchRect(st.layout)), Picked(st.colormap[sel.x][sel.y]))
  }

  /**
   * `select_colorselect`: the selected colour goes to the clipboard, which
   * changes nothing here; reading the colour can still fail.
   */
  function SelectColorselect(st: State): (r: Option<State>)
    requires WellFormed(st)
    ensures r.Some? <==> GetColorValue(st).Some?
    ensures r.Some? ==> r.value == st
  {
    if GetColorValue(st).Some? then Some(st) else None
  }

  /** `interact`: spectrum, colormap and colour-select areas are tried in that order. */
  function Interact(st: State, pos: Point): (r: Option<Step>)
    requires WellFormed(st)
    ensures r.None? <==>
      !CollidePoint(st.layout.spectrumArea, pos) && !CollidePoint(st.layout.colormapArea, pos)
      && CollidePoint(st.layout.colorselectArea, pos) && GetColorValue(st).None?
    ensures r.Some? ==> WellFormed(r.value.state)
    ensures Valid(st) && r.Some? ==> Valid(r.value.state)
    ensures SelectionInGrid(st) ==> r.Some? && SelectionInGrid(r.value.state)
  {
    var l := st.layout;
    if CollidePoint(l.spectrumArea, pos) then Some(SelectSpectrum(st, pos))
    else if CollidePoint(l.colormapArea, pos) then Some(SelectColormap(st, pos))
    else if CollidePoint(l.colorselectArea, pos) then
      match SelectColorselect(st)
      case None => None
      case Some(st1) => Some(Step(st1, Unchanged))
    else Some(Step(st, Unchanged))
  }

  // ---------------------------------------------------------------------------
  // Properties of the generated arrays

  /** Every spectrum pixel is `hsv_to_rgb(x/360, 1, 1)`, so all rows of a column agree. */
  lemma SpectrumColumns(w: nat, h: nat, x: int, y: int)
    requires 0 <= x < w && 0 <= y < h
    ensures Spectrum(w, h)[x][y] == Store(HsvToRgb(x as real / 360.0, 1.0, 1.0))
    ensures Spectrum(w, h)[x][y] == Spectrum(w, h)[x][0]
  {
  }

  /** Column 0 has no saturation: all its cells are grey. */
  lemma ColormapGreyColumn(hue: real, w: nat, h: nat, y: int)
    requires w > 0 && h > 0 && 0 <= y < h
    ensures IsGrey(Colormap(hue, w, h)[0][y])
  {
    var v := (h - y) as real * (1.0 / h as real);
    HsvGrey(hue, v);
    assert 0 as real * (1.0 / w as real) == 0.0;
  }

  /** The top-left cell has no saturation and full value: it is white at every hue. */
  lemma ColormapWhiteCorner(hue: real, w: nat, h: nat)
    requires w > 0 && h > 0
    ensures Colormap(hue, w, h)[0][0] == White
  {
    HsvGrey(hue, 1.0);
    assert (h - 0) as real * (1.0 / h as real) == 1.0;
    assert 0 as real * (1.0 / w as real) == 0.0;
    assert ToByte(255.0) == 255;
  }

  /**
   * For a non-negative hue each stored channel of cell (x, y) lies between
   * the stored 255v(1 - s) and 255v of that cell, with s = x/w and v = (h - y)/h.
   */
  lemma ColormapBounds(hue: real, w: nat, h: nat, x: int, y: int)
    requires hue >= 0.0 && w > 0 && h > 0 && 0 <= x < w && 0 <= y < h
    ensures var c := Colormap(hue, w, h)[x][y];
      var s, v := x as real / w as real, (h - y) as real / h as real;
      var lo, hi := ToByte(Low(s, v)), ToByte(High(v));
      lo <= c.r <= hi && lo <= c.g <= hi && lo <= c.b <= hi
  {
    var s, v := x as real / w as real, (h - y) as real / h as real;
    UnitRatios(w, h, x, y);
    var c := HsvToRgb(hue, s, v);
    assert Colormap(hue, w, h)[x][y] == Store(c) by {
      CellFormula(hue, w, h, x, y);
    }
    HsvBounds(hue, s, v);
    StoreRgbBetween(c, Low(s, v), High(v));
  }

  /** Saturation x/w and value (h - y)/h of a cell both lie in [0, 1]. */
  lemma UnitRatios(w: nat, h: nat, x: int, y: int)
    requires w > 0 && h > 0 && 0 <= x < w && 0 <= y < h
    ensures InUnit(x as real / w as real) && InUnit((h - y) as real / h as real)
  {
    assert x as real < w as real;
    assert (h - y) as real <= h as real;
  }

  // ---------------------------------------------------------------------------
  // Properties of interaction

  /**
   * A click in the spectrum area: the hue becomes x/360 of the absolute x,
   * every cell is regenerated for it, exactly the colormap area is queued,
   * the selection is kept and True is returned.
   */
  lemma InteractSpectrum(st: State, pos: Point)
    requires WellFormed(st) && CollidePoint(st.layout.spectrumArea, pos)
    ensures var r := Interact(st, pos);
      && r.Some? && r.value.reply == Changed
      && var n := r.value.state;
      && n.hue == pos.x as real / 360.0
      && n.selection == st.selection && n.layout == st.layout && n.spectrum == st.spectrum
      && n.rects == st.rects + [st.layout.colormapArea] && n.pending
      && IsGrid(n.colormap, st.layout.colormapArea.w, st.layout.colormapArea.h)
      && forall x, y :: 0 <= x < st.layout.colormapArea.w && 0 <= y < st.layout.colormapArea.h ==>
           n.colormap[x][y] == Store(HsvToRgb(n.hue, x as real / st.layout.colormapArea.w as real,
             (st.layout.colormapArea.h - y) as real / st.layout.colormapArea.h as real))
  {
    var n := Interact(st, pos).value.state;
    var w, h := st.layout.colormapArea.w, st.layout.colormapArea.h;
    forall x, y | 0 <= x < w && 0 <= y < h
      ensures n.colormap[x][y] == Store(HsvToRgb(n.hue, x as real / w as real, (h - y) as real / h as real))
    {
      CellFormula(n.hue, w, h, x, y);
    }
  }

  /**
   * A click in the colormap area and not in the spectrum area: the selection
   * becomes the click's offset inside the area, the swatch is queued as
   * `display_colorselect` queues it, and the reply is that cell's colour as
   * `get_colorvalue` then reads it; hue and arrays are kept.
   */
  lemma InteractColormap(st: State, pos: Point)
    requires WellFormed(st)
    requires !CollidePoint(st.layout.spectrumArea, pos) && CollidePoint(st.layout.colormapArea, pos)
    ensures var r := Interact(st, pos);
      && r.Some?
      && var n := r.value.state;
      && var area := st.layout.colormapArea;
      && n.selection == Point(pos.x - area.x, pos.y - area.y)
      && SelectionInGrid(n)
      && WellFormed(n)
      && Some(r.value.reply.color) == GetColorValue(n)
      && r.value.reply.Picked?
      && n.colormap == st.colormap && n.hue == st.hue && n.layout == st.layout
      && DisplayColorselect(st.(selection := n.selection)) == Some(n)
  {
  }

  /** A click only in the colour-select area changes nothing and returns False, unless reading the colour fails. */
  lemma InteractColorselect(st: State, pos: Point)
    requires WellFormed(st)
    requires !CollidePoint(st.layout.spectrumArea, pos) && !CollidePoint(st.layout.colormapArea, pos)
    requires CollidePoint(st.layout.colorselectArea, pos)
    ensures Interact(st, pos).Some? <==> GetColorValue(st).Some?
    ensures Interact(st, pos).Some? ==> Interact(st, pos).value == Step(st, Unchanged)
  {
  }

  /** A click outside all three areas changes nothing and returns False. */
  lemma InteractMiss(st: State, pos: Point)
    requires WellFormed(st)
    requires !CollidePoint(st.layout.spectrumArea, pos) && !CollidePoint(st.layout.colormapArea, pos)
    requires !CollidePoint(st.layout.colorselectArea, pos)
    ensures Interact(st, pos) == Some(Step(st, Unchanged))
  {
  }

  /** The reply is True exactly for spectrum clicks and a colour exactly for colormap clicks. */
  lemma InteractReply(st: State, pos: Point)
    requires WellFormed(st)
    ensures Interact(st, pos).Some? ==>
      var reply := Interact(st, pos).value.reply;
      && (reply == Changed <==> CollidePoint(st.layout.spectrumArea, pos))
      && (reply.Picked? <==> !CollidePoint(st.layout.spectrumArea, pos) && CollidePoint(st.layout.colormapArea, pos))
  {
  }

  /**
   * With the spectrum area at the left edge of the display, the hue chosen by
   * a spectrum click is the hue of the spectrum column that was clicked.
   */
  lemma SpectrumHueAtClick(st: State, pos: Point)
    requires WellFormed(st) && CollidePoint(st.layout.spectrumArea, pos) && st.layout.spectrumArea.x == 0
    ensures var n := Interact(st, pos).value.state;
      var area := st.layout.spectrumArea;
      st.spectrum[pos.x - area.x][pos.y - area.y] == Store(HsvToRgb(n.hue, 1.0, 1.0))
  {
  }

  // ---------------------------------------------------------------------------
  // Properties of the dirty-rectangle queue

  /** `update` is idempotent, and a `refresh` followed by `update` leaves the state as `update` alone does. */
  lemma UpdateDrains(st: State)
    requires WellFormed(st)
    ensures Update(Update(st)) == Update(st)
    ensures Update(Refresh(st)) == Update(st)
  {
  }

  /**
   * `display` appends exactly three rectangles, the spectrum's, the
   * colormap's and the swatch's (the readout adds none), and fails exactly
   * when the selected colour cannot be read.
   */
  lemma DisplayQueuesThree(st: State)
    requires WellFormed(st)
    ensures Display(st).Some? <==> GetColorValue(st).Some?
    ensures Display(st).Some? ==>
      var l := st.layout;
      var spec := Rect(l.width - l.spectrumArea.w, l.height - l.spectrumArea.h, l.spectrumArea.w, l.spectrumArea.h);
      Display(st).value == st.(rects := st.rects + [Clip(spec, DisplayArea(l)), Clip(l.colormapArea, DisplayArea(l)), SwatchRect(l)],
                              pending := true)
    ensures Display(st).Some? ==> WellFormed(Display(st).value)
  {
    var s2 := DisplayColormap(DisplaySpectrum(st));
    assert GetColorValue(s2) == GetColorValue(st);
  }

  /**
   * `display_colorvalue` raises the flag and queues nothing whenever the
   * selected colour can be read, negative indices included.
   */
  lemma DisplayColorvalueQueuesNothing(st: State)
    requires WellFormed(st)
    ensures DisplayColorvalue(st).Some? <==> GetColorValue(st).Some?
    ensures DisplayColorvalue(st).Some? ==> DisplayColorvalue(st).value == st.(pending := true)
  {
  }

  /**
   * The selection `init` leaves at (w - 100, h - 100) can be read exactly when
   * both colormap sides are at least 50; below 100 the read counts from the
   * end, landing on cell (2w - 100, 2h - 100). A readable selection makes
   * every interaction succeed.
   */
  lemma InitSelectionReadable(c: Config)
    requires ConfigOk(c)
    ensures var st := Init(c).value;
      && (GetColorValue(st).Some? <==> c.colormapSize.w >= 50 && c.colormapSize.h >= 50)
      && (GetColorValue(st).Some? && c.colormapSize.w < 100 && c.colormapSize.h < 100 ==>
            GetColorValue(st) == Some(st.colormap[2 * c.colormapSize.w - 100][2 * c.colormapSize.h - 100]))
      && (GetColorValue(st).Some? ==> forall pos :: Interact(st, pos).Some?)
  {
  }

  /**
   * With the default arguments `init` selects cell (200, 200), and a first
   * `display` queues the spectrum, colormap and swatch rectangles unclipped.
   */
  lemma DefaultInit()
    ensures Init(DefaultConfig).Some?
    ensures var st := Init(DefaultConfig).value;
      && st.selection == Point(200, 200) && SelectionInGrid(st)
      && GetColorValue(st) == Some(st.colormap[200][200])
      && Display(st) == Some(st.(rects := [Rect(0, 320, 360, 40), Rect(10, 10, 300, 300), Rect(320, 10, 30, 30)],
                                 pending := true))
  {
    var st := Init(DefaultConfig).value;
    var l := st.layout;
    assert l == Layout(360, 360, Rect(0, 320, 360, 40), Rect(10, 10, 300, 300), Rect(320, 10, 30, 30));
    assert SelectionInGrid(st);
    DisplayQueuesThree(st);
    assert Clip(Rect(0, 320, 360, 40), DisplayArea(l)) == Rect(0, 320, 360, 40);
    assert Clip(l.colormapArea, DisplayArea(l)) == Rect(10, 10, 300, 300);
    assert SwatchRect(l) == Rect(320, 10, 30, 30);
    var queued := [Rect(0, 320, 360, 40), Rect(10, 10, 300, 300), Rect(320, 10, 30, 30)];
    assert st.rects + queued == queued;
    assert Display(st).value == st.(rects := queued, pending := true);
  }
}
