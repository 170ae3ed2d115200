# Chromatics colour picker — a Dafny model

Chromatics is a small colour-picker widget. It draws a hue spectrum bar and a
saturation/value colormap at the chosen hue. Below those it shows a swatch of
the selected colour and a text readout of its RGB values. A click on the
spectrum picks a hue and regenerates the colormap. A click on the colormap
picks a colour. A click on the swatch copies the colour to the clipboard. The
picker also keeps a queue of display rectangles that the host presents once
per frame.

This project models the picker's core in the two module variants of the
repository:

- `chromatics/chromatics.py` is the reference. The modules are `Hsv`, `Pixels`,
  `Geometry` and `Chromatics`.
- The older `chromatics.py` is modelled in module `Legacy`. That module
  reuses everything the two files share.

How the model is built:

- Floats are exact `real`s.
- Python's truncating `int()` is `Hsv.Trunc`. Python's `% 6` is Dafny's `%`,
  since both are non-negative for a positive modulus.
- Writing a float into a uint8 array is `Pixels.ToByte`: truncation, then the
  low eight bits.
- Arrays are `seq<seq<Pixel>>` indexed `[x][y]`, as the `(width, height, 3)`
  arrays of the source are.
- The picker object is an immutable `Chromatics.State` record. Each method is
  a transition on it.
- Python exceptions are `None` results. This covers `init` with a zero
  colormap side (it divides by both sides) or a negative surface size. It also
  covers reading the selected colour when the selection cannot index the array.
  Python's negative indexing is modelled (`Chromatics.PyIndex`), because
  `init` puts the selection at `(w - 100, h - 100)`, which is negative for
  small colormaps.
- `Rect.collidepoint` is the half-open test in `Geometry.CollidePoint`.
- The rectangle a blit reports is the destination clipped to the display.
  This follows SDL's clipping (`Geometry.Clip`).

Three details of the code a reader might not expect, which the model keeps:

- A spectrum click uses the click's absolute x coordinate as the hue in
  degrees, not its offset inside the spectrum area. The two agree when the
  spectrum sits at x = 0, as it does by default (`Chromatics.SpectrumHueAtClick`).
- Colormap cell (0, 0) has value `(h - 0)/h = 1`, so it is white
  (`Chromatics.ColormapWhiteCorner`).
- `display_spectrum` draws the spectrum at the display's bottom-right corner.
  It does not use the configured spectrum position, though the hit test does.

## Model

| member | source | states |
|---|---|---|
| Hsv.Trunc | chromatics/chromatics.py:313 | `int()` truncates toward zero: the result is the integer at or below a non-negative argument and at or above a negative one, within 1 |
| Hsv.Sector | chromatics/chromatics.py:313-319 | the sector `int(6h) % 6` always lies in 0..5 and is `floor(6h) mod 6` for non-negative hues |
| Hsv.Frac | chromatics/chromatics.py:313-314 | the in-sector fraction lies in [0, 1) for a non-negative hue and in (-1, 0] for a negative one |
| Hsv.HsvToRgb | chromatics/chromatics.py:309-331 | every sector puts u = 255v on one channel and p = 255v(1 - s) on another; with s = 0 all three channels are 255v (the bounds, extremes and closed form are the lemmas below) |
| Hsv.HsvBounds | chromatics/chromatics.py:309-331 | for h >= 0 and s, v in [0, 1], every channel lies between 255v(1 - s) and 255v, and those bounds lie in [0, 255] |
| Hsv.HsvExtremes | chromatics/chromatics.py:315-331 | every sector's triple holds both u and p, so the largest channel is exactly 255v and the smallest exactly 255v(1 - s) |
| Hsv.HsvGrey | chromatics/chromatics.py:315-331 | with s = 0 the three channels are equal to 255v in every sector |
| Hsv.HsvRed | chromatics/chromatics.py:313-321 | `hsv_to_rgb(0, 1, 1)` is (255, 0, 0) |
| Hsv.HsvPeriodic | chromatics/chromatics.py:313-319 | for non-negative hues, adding a full turn to the hue does not change the result |
| Hsv.HsvMatchesChannels | chromatics/chromatics.py:309-331 | the six-sector table equals, for every non-negative hue, the closed-form channel formula 255(v - vs·clamp(min(k, 4 - k))) with k = (n + 6h) mod 6 |
| Pixels.ToByte | chromatics/chromatics.py:166-168 | storing a value in [0, 256) into a uint8 element keeps its integer part |
| Pixels.StoreBetween | chromatics/chromatics.py:197-224 | storing bytes keeps the order of values that lie in the channel range |
| Geometry.Clip | chromatics/chromatics.py:248-249 | the reported blit rectangle has non-negative size and covers exactly the points that are both in the destination and in the display; a destination inside the display is reported unchanged |
| Chromatics.SpectrumColumns | chromatics/chromatics.py:162-168 | spectrum pixel (x, y) is the stored `hsv_to_rgb(x/360, 1, 1)`, the same in every row of a column |
| Chromatics.Spectrum | chromatics/chromatics.py:155-170 | the spectrum array has the spectrum's size, every pixel is a pure hue (one channel 255, one 0) and all rows of a column are equal |
| Chromatics.SpectrumPixelPure | chromatics/chromatics.py:163-168 | the colour `hsv_to_rgb(x/360, 1, 1)` stored for column x has one channel at 255 and one at 0 |
| Chromatics.Colormap | chromatics/chromatics.py:180-225 | the generated array has the colormap's size and cell (x, y) is the stored `hsv_to_rgb(hue, x/w, (h - y)/h)` |
| Chromatics.FillColormap | chromatics/chromatics.py:180-225 | the column-by-column, row-by-row loop produces exactly the array `Chromatics.Colormap` defines |
| Chromatics.CellFormula | chromatics/chromatics.py:187-225 | computing saturation and value by multiplying with the resolutions 1/w and 1/h gives the cell at s = x/w and v = (h - y)/h |
| Chromatics.ColormapGreyColumn | chromatics/chromatics.py:187-225 | every cell of column 0 (no saturation) is grey |
| Chromatics.ColormapWhiteCorner | chromatics/chromatics.py:187-199 | cell (0, 0) is (255, 255, 255) at every hue |
| Chromatics.ColormapBounds | chromatics/chromatics.py:187-225 | for a non-negative hue each stored channel of a cell lies between the stored 255v(1 - s) and 255v of that cell |
| Chromatics.GenerateColormap | chromatics/chromatics.py:180-225 | the hue becomes deg/360 and the array becomes the one generated for it; nothing else changes |
| Chromatics.Prepared | chromatics/chromatics.py:99-170 | the setters take width and height from the display size, build the spectrum and colormap areas from position and size, put the swatch at (width - 40, 10) and queue nothing, and `generate_spectrum` fills the spectrum, giving a well-formed state |
| Chromatics.Init | chromatics/chromatics.py:48-133 | `init` fails exactly on a negative surface size or a zero colormap side; otherwise the state is valid, its layout is built from the arguments (display size, spectrum and colormap areas from position and size, swatch at (width - 40, 10)), with hue 240/360, the selection at (w - 100, h - 100) and an empty queue |
| Chromatics.PyIndex | chromatics/chromatics.py:294-295 | Python indexing of a length-n sequence succeeds exactly for -n <= k < n and counts negative indices from the end |
| Chromatics.GetColorValue | chromatics/chromatics.py:290-295 | the read succeeds exactly when both indices are within Python's index range; it returns cell [x][y], with a negative index counted from the end (x + w, y + h) |
| Chromatics.DisplayColorselect | chromatics/chromatics.py:260-271 | drawing the swatch fails exactly when the selected colour cannot be read; otherwise it appends the swatch's blit rectangle, sets the flag and changes nothing else |
| Chromatics.DisplaySpectrum | chromatics/chromatics.py:242-250 | appends one rectangle and sets the flag, changing nothing else; the rectangle covers exactly the display points at or right of width - spectrum width and at or below height - spectrum height |
| Chromatics.DisplayColormap | chromatics/chromatics.py:252-258 | appends one rectangle and sets the flag, changing nothing else; the rectangle covers exactly the part of the colormap area on the display |
| Chromatics.DisplayColorvalue | chromatics/chromatics.py:273-288 | fails exactly when the colour cannot be read; otherwise sets the flag and appends no rectangle |
| Chromatics.Display | chromatics/chromatics.py:229-240 | fails exactly when the colour cannot be read; otherwise appends three rectangles after the earlier ones, sets the flag and changes nothing else |
| Chromatics.Refresh | chromatics/chromatics.py:387-392 | appends exactly the display area after the earlier entries, sets the flag and changes nothing else |
| Chromatics.Update | chromatics/chromatics.py:394-401 | leaves an empty queue and a clear flag, is a no-op when the flag is clear, and changes nothing else |
| Chromatics.SelectSpectrum | chromatics/chromatics.py:348-361 | returns True, sets the hue to x/360, regenerates the array for it, appends the colormap area and keeps everything else |
| Chromatics.SelectColormap | chromatics/chromatics.py:363-376 | the selection becomes the offset inside the area and lies in the array; the swatch is appended; the returned colour is what `get_colorvalue` then reads; nothing else changes |
| Chromatics.Interact | chromatics/chromatics.py:333-346 | fails exactly on a swatch-only click whose colour cannot be read; keeps the state well-formed, keeps the array matching the hue, and with the selection in the array never fails and keeps it there |
| Chromatics.SelectColorselect | chromatics/chromatics.py:378-385 | a swatch click changes no state and fails only when the selected colour cannot be read |
| Chromatics.InteractSpectrum | chromatics/chromatics.py:340-361 | a spectrum click returns True, sets the hue to x/360 of the absolute x, regenerates every cell for it, queues exactly the colormap area and keeps the selection |
| Chromatics.InteractColormap | chromatics/chromatics.py:342-376 | a colormap click sets the selection to the offset inside the area, which lies inside the array; it queues the swatch as `display_colorselect` does and returns the colour `get_colorvalue` then reads |
| Chromatics.InteractColorselect | chromatics/chromatics.py:344-346 | a click only in the swatch area leaves the state unchanged and returns False, unless reading the colour fails |
| Chromatics.InteractMiss | chromatics/chromatics.py:340-346 | a click outside all three areas leaves the state unchanged and returns False |
| Chromatics.InteractReply | chromatics/chromatics.py:333-346 | whenever interaction succeeds, whatever the selection, the reply is True exactly for spectrum clicks and a colour exactly for colormap clicks outside the spectrum |
| Chromatics.SpectrumHueAtClick | chromatics/chromatics.py:356-357 | with the spectrum at x = 0, the hue chosen by a click is the hue of the spectrum column that was clicked |
| Chromatics.UpdateDrains | chromatics/chromatics.py:387-401 | `update` is idempotent, and `update` after `refresh` gives the same state as `update` alone |
| Chromatics.DisplayQueuesThree | chromatics/chromatics.py:229-288 | `display` appends exactly the spectrum, colormap and swatch rectangles and sets the flag (the readout appends none); it fails exactly when the colour cannot be read |
| Chromatics.DisplayColorvalueQueuesNothing | chromatics/chromatics.py:273-288 | whenever the colour can be read, negative indices included, the readout only sets the flag; it fails exactly when the read fails |
| Chromatics.InitSelectionReadable | chromatics/chromatics.py:48-70 | the initial selection (w - 100, h - 100) can be read exactly when both sides are at least 50, counting from the end below 100 (cell (2w - 100, 2h - 100)), and then no interaction fails |
| Chromatics.DefaultInit | chromatics/chromatics.py:48-70 | with the defaults the selection is (200, 200), and a first `display` queues (0, 320, 360, 40), (10, 10, 300, 300) and (320, 10, 30, 30) |
| Legacy.LegacyTableSkipsSectorOne | chromatics.py:130-159 | the legacy dispatch takes no branch exactly in sector 1, and otherwise picks the reference table's triple |
| Legacy.SectorOneDegrees | chromatics.py:116-129 | for whole non-negative degrees, sector 1 is exactly 60 <= deg mod 360 < 120 |
| Legacy.LegacyCell | chromatics.py:113-161 | a cell after the legacy fill is the previous cell in sector 1 and the reference cell in every other sector |
| Legacy.LegacyColormap | chromatics.py:113-161 | the legacy array has the colormap's size; each cell is the previous one in sector 1 and the reference cell otherwise |
| Legacy.GenerateColormap | chromatics.py:113-161 | the legacy fill always stores the hue deg/360 and changes nothing but hue and array |
| Legacy.SectorOneKeepsGrid | chromatics.py:113-161 | in sector 1 the legacy fill leaves the array exactly as it was and only the hue changes |
| Legacy.OtherSectorsAgree | chromatics.py:119-159 | outside sector 1 the legacy fill equals the reference fill, so every cell is the stored `hsv_to_rgb(deg/360, x/w, (h - y)/h)` |
| Legacy.Init | chromatics.py:38-53 | the legacy `init` fails exactly on the same configurations and yields a well-formed state |
| Legacy.InitAgrees | chromatics.py:38-53 | the legacy `init` (hue 240, sector 4) yields the same state as the reference, so the selection starts at (w - 100, h - 100) |
| Legacy.SelectSpectrum | chromatics.py:246-252 | returns True, stores the hue x/360, appends the colormap area and changes nothing but hue, array and queue |
| Legacy.Interact | chromatics.py:237-244 | keeps the state well-formed; a click outside the spectrum behaves exactly as the reference; a spectrum click returns True |
| Legacy.InteractAgrees | chromatics.py:237-268 | except for spectrum clicks in sector 1, legacy interaction equals the reference, including the colormap and swatch cases |
| Legacy.InteractSectorOne | chromatics.py:246-252 | a sector-1 spectrum click returns True, stores the hue and queues the colormap area, but leaves the array untouched |
| Legacy.StaleColormap | chromatics.py:135-139 | on the default picker a click at (90, 330) leaves an array that does not match the stored hue; the reference keeps them matched |

The older `hsv_to_rgb` (chromatics.py:216-235) is the same table as the
reference (chromatics/chromatics.py:309-331). So is the older
`generate_spectrum` (chromatics.py:102-111). The model has one definition of
each, and the `Hsv` lemmas hold for both files. The older `select_colormap`
(chromatics.py:254-260) is also the reference code, and so is the queue
bookkeeping (chromatics.py:163-204, 270-278).

## Left out

- chromatics-app.py: the event loop, window setup, icon decoding and frame clock are host plumbing.
- Pixel work: surface creation, fills, blits, the swatch border, font rendering and `pg.display.update` are library calls. Only the queued rectangles and the "needs present" flag are modelled.
- The clipboard: `set_colorvalue`'s clipboard setup, platform branching and payload encoding are I/O. `select_colorselect` is modelled as "no state change". In the reference a failing `put` would propagate, and in the older file it is swallowed. Neither case is visible in the model.
- Fonts: `set_colorvalue`'s lazy font creation and the readout's text.
- The display-supplied branch of the older `set_display` (chromatics.py:69-74), which adopts a host surface.
- The getters `get_width`, `get_height`, `get_spectrum` and `get_colormap` return fields of the state record.
- IEEE float rounding: all arithmetic is over exact reals. Results that binary floats round differently, near sector or byte boundaries, are not reproduced.
- Pixels.ToByte: an out-of-range float stored into a uint8 array is unspecified in numpy. The model takes the low eight bits of the truncated value. Such values only arise for a negative hue, that is, a spectrum area placed at negative x.
- Effects before an exception: a `None` result drops the whole call's effect. The source changes state before some exceptions. `display` queues the spectrum and colormap rectangles and sets the flag before `display_colorselect` raises IndexError (chromatics/chromatics.py:236-237, 249-250, 257-258, 264-265). `init` sets surfaces and sizes before the ZeroDivisionError (chromatics/chromatics.py:122-123). The host never catches these exceptions (chromatics-app.py:61-70), so the partly changed object is never used again.
- Hsv.HsvBounds: stated for non-negative hues only. For a negative hue, Python's truncating `int()` gives a fraction in (-1, 0], so q can exceed 255v and t can fall below 255v(1 - s), even below 0.
- Hsv.HsvPeriodic: stated for non-negative hues only. Truncation toward zero breaks the period across hue 0.

## Findings

| source | as written | input that shows it | evidently intended | confidence | as-written member | corrected member |
|---|---|---|---|---|---|---|
| chromatics.py:135 | the second branch of the colormap's sector dispatch tests `i == 0` again, so hue sector 1 (60 to 120 degrees) writes no cell | default picker, click at (90, 330): the hue becomes 90 degrees, but cell (299, 0) keeps red 0 from 240 degrees where 90 degrees gives red 127 | `i == 1`, writing (q, u, p) as `hsv_to_rgb` and chromatics/chromatics.py:201 do | high (not executed) | Legacy.GenerateColormap, Legacy.StaleColormap | Chromatics.GenerateColormap, Chromatics.Interact |
