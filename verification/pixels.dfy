/** The uint8 pixel arrays (`surfarray.array3d`) the picker stores its colours in. */
module Pixels {
  import opened Hsv

  /** One element of a uint8 array. */
  type Byte = x: int | 0 <= x < 256

  /**
   * Storing a float into a uint8 array element: truncation toward zero,
   * then the low eight bits.
   */
  function ToByte(x: real): (b: Byte)
    ensures 0.0 <= x < 256.0 ==> b as real <= x < b as real + 1.0
  {
    Trunc(x) % 256
  }

  /** A stored RGB pixel. */
  datatype Pixel = Pixel(r: Byte, g: Byte, b: Byte)

  const Black := Pixel(0, 0, 0)
  const White := Pixel(255, 255, 255)

  /** Writing the three channels of a converted colour into one array cell. */
  function Store(c: Rgb): Pixel
  {
    Pixel(ToByte(c.r), ToByte(c.g), ToByte(c.b))
  }

  predicate IsGrey(p: Pixel) { p.r == p.g == p.b }

  /** A pixel array indexed `grid[x][y]`, as the (width, height, 3) arrays of the source. */
  type Grid = seq<seq<Pixel>>

  predicate IsGrid(g: Grid, w: int, h: int)
  {
    |g| == w && forall x :: 0 <= x < |g| ==> |g[x]| == h
  }

  /** The contents of a freshly created surface's array: all black. */
  function Blank(w: nat, h: nat): (g: Grid)
    ensures IsGrid(g, w, h)
    ensures forall x, y :: 0 <= x < w && 0 <= y < h ==> g[x][y] == Black
  {
    seq(w, x => seq(h, y => Black))
  }

  /** Storing is monotone on the channel range. */
  lemma ToByteMono(x: real, y: real)
    requires 0.0 <= x <= y < 256.0
    ensures ToByte(x) <= ToByte(y)
  {
  }

  /** A stored channel of a colour lying between lo and hi lies between their stored values. */
  lemma StoreBetween(c: real, lo: real, hi: real)
    requires 0.0 <= lo <= c <= hi < 256.0
    ensures ToByte(lo) <= ToByte(c) <= ToByte(hi)
  {
    ToByteMono(lo, c);
    ToByteMono(c, hi);
  }

  /** Every stored channel of a colour whose channels lie between lo and hi lies between their stored values. */
  lemma StoreRgbBetween(c: Rgb, lo: real, hi: real)
    requires 0.0 <= lo && hi < 256.0
    requires lo <= c.r <= hi && lo <= c.g <= hi && lo <= c.b <= hi
    ensures var p := Store(c);
      ToByte(lo) <= p.r <= ToByte(hi) && ToByte(lo) <= p.g <= ToByte(hi) && ToByte(lo) <= p.b <= ToByte(hi)
  {
    StoreBetween(c.r, lo, hi);
    StoreBetween(c.g, lo, hi);
    StoreBetween(c.b, lo, hi);
  }
}
