# QR code logo overlay — a Dafny model

`generate_qr_code.py` renders a QR code for a link and can put a logo in its
center. The QR encoding is done by the `qrcode` library. The one piece of
logic of the script's own is the overlay (lines 44-64 of
`generate_qr_code_for_link`). It has five steps:

1. It caps the logo at a fraction of the symbol's shorter side.
2. It shrinks the logo to fit a cap x cap box.
3. It sizes a white backing plate at 105% of the logo, as a whole number of
   modules (`box_size` pixels each).
4. It centers the plate and the logo on the symbol with floor division.
5. It pastes the plate, then the logo, alpha-blending each onto the symbol.

This project models that overlay and proves what it guarantees:

- the plate's size is module-aligned (but its position is not always);
- the logo lies inside the plate;
- the final image differs from the encoder's only inside the plate;
- without a logo, the image is untouched.

Modules:

- `Geometry` (geometry.dfy) holds the pure integer part: the logo cap, the
  thumbnail size, the plate size, the centering offsets and the rectangles.
  Python's float `logo_size` is the rational `num/den`, and `int(1.05*d)` is
  `(105*d)/100`. The second agrees with the double computation at pixel
  scale. The cap can be one pixel lower in Python than the rational floor
  (see `Geometry.LogoCap` under "## Left out").
  Dafny's `/` by 2 is floor division, like Python's `//`, also when the plate
  is wider than the canvas and the offset is negative.
- `Raster` (raster.dfy) holds the pixel grid. `Pixel` is RGBA with 8-bit
  channels. `Image` is a class over an `array2<Pixel>`. Besides its size
  accessors `Width()` and `Height()`, it has three operations:
  - `Filled` models `Image.new(...).convert("RGBA")`.
  - `Paste` models `img.paste(src, pos, src)`: a clipped rectangle update.
  - `Thumbnail` models `logo.thumbnail(...)`: an in-place resize.
- `Compositor` (compositor.dfy) holds the overlay itself as a method on the
  symbol image and the optional logo (`null` when no logo path is given).

Two facts about the code's plate are worth stating separately:

- The plate side is `(int(1.05*d) // box_size + 1) * box_size`: floor plus one
  module, not a round-up. A margin that is already a multiple of `box_size`
  still gets a whole extra module (`PlateDimOnExactMultiple`).
- Only the plate's size is a multiple of `box_size`, not its position.
  `PlateOffsetAlignment` shows that on a symbol a whole number of modules
  across, the plate starts on a module line when an even number of modules
  is left over. When the leftover is odd, it starts `box_size // 2` pixels
  past one. That is half a module for an even `box_size` and
  `(box_size - 1) / 2` pixels for an odd one. A QR symbol is an odd number
  of modules across, so a plate of an even number of modules is off the
  module grid unless `box_size` is 1.

## Model

| member | source | states |
|---|---|---|
| Geometry.LogoCap | generate_qr_code.py:46-47 | the cap is the floor of min(width, height) * num / den (cap * den <= side * num < (cap + 1) * den), and at most the shorter side when the fraction is at most 1 |
| Geometry.FloorScaled | generate_qr_code.py:47 | the floor bounds of side * num / den, and the bound by side when num <= den |
| Geometry.ThumbnailSize | generate_qr_code.py:48-49 | the thumbnailed size never grows, never exceeds the cap, is at least 1 x 1, is unchanged exactly when the logo already fits, otherwise has its longer side equal to the cap, and keeps the aspect ratio to within one pixel |
| Geometry.PortraitWidth | generate_qr_code.py:48 | a portrait logo's new width is between 1 and both its old width and the cap, and within one pixel of the proportional width |
| Geometry.LandscapeHeight | generate_qr_code.py:48 | a landscape logo's new height is between 1 and both its old height and the cap, and within one pixel of the proportional height |
| Geometry.RoundedQuotient | generate_qr_code.py:48 | floor and ceiling of a quotient are less than one step from the exact value and keep any bound the quotient keeps |
| Raster.Image.Thumbnail | generate_qr_code.py:48 | the logo's new size is ThumbnailSize of its old size and the cap; a logo that fits keeps its pixel buffer |
| Geometry.WithMargin | generate_qr_code.py:57-58 | int(1.05 * d) is the floor of 105% of d and is at least d |
| Geometry.PlateDim | generate_qr_code.py:57-58 | each plate side is a positive multiple of box_size, strictly above int(1.05 * d) by at most box_size, and so strictly larger than the logo side |
| Geometry.PlateIsWholeModules | generate_qr_code.py:57-58 | each plate side is k modules of box_size pixels for some whole k >= 1 |
| Geometry.PlateDimIsLeast | generate_qr_code.py:57-58 | the plate side is at most every multiple of box_size above int(1.05 * d), so it is the least one |
| Geometry.PlateDimOnExactMultiple | generate_qr_code.py:57-58 | when int(1.05 * d) is already a multiple of box_size, the plate adds a whole extra module |
| Geometry.ExtraModuleExample | generate_qr_code.py:57 | int(1.05 * 20) = 21 gives a 42-pixel plate side with box_size 21, not 21 |
| Geometry.CenterOffset | generate_qr_code.py:50-51 | the centering offset leaves a left margin at most the right margin and at most one less; a rectangle no larger than the canvas lies inside it |
| Geometry.CenterOffsetUnique | generate_qr_code.py:59 | the offset is the only one with margins balanced that way |
| Geometry.CenteredNested | generate_qr_code.py:50-59 | of two sides l <= p centered on one canvas side, the shorter lies within the longer |
| Geometry.LogoRect | generate_qr_code.py:50-52 | the logo's paste rectangle has the thumbnailed logo's size and balanced margins on each axis (left or top margin at most the other and at most one pixel less), and lies inside the symbol when the logo fits |
| Geometry.PlateRect | generate_qr_code.py:57-59 | the plate's paste rectangle has sides that are multiples of box_size strictly above int(1.05 * d) by at most box_size, and balanced margins on each axis |
| Geometry.LogoInsidePlate | generate_qr_code.py:50-59 | every pixel of the centered logo rectangle lies in the centered plate rectangle |
| Geometry.LogoInsideCanvas | generate_qr_code.py:46-51 | with a fraction of at most 1, the thumbnailed, centered logo lies inside the symbol image |
| Geometry.PlateOffsetAlignment | generate_qr_code.py:57-59 | on a canvas side of whole modules, the plate's offset lies 0 pixels past a module line when the modules left over are even and box_size // 2 pixels past one when they are odd, so it is on the grid exactly when the leftover is even or box_size is 1 |
| Geometry.PlatePositionOnGrid | generate_qr_code.py:57-59 | the same offset-within-module for the plate built from a logo side on a symbol side of whole modules |
| Geometry.PlateOffsetOnGrid | generate_qr_code.py:59 | on a canvas side of whole modules, a plate of whole modules that leaves an even number of modules over is placed at a whole number of modules |
| Geometry.HalfOfOddModules | generate_qr_code.py:59 | half of an odd number of modules, rounded down, ends box_size // 2 pixels past a module line |
| Geometry.PlateOverhangsExample | generate_qr_code.py:57-59 | with logo_size 1, a 100 x 100 logo on a 100 x 100 symbol gets a 125 x 125 plate at offset -13, so the plate overhangs the canvas |
| Geometry.DocumentedScenario | generate_qr_code.py:46-59 | a 500 x 200 logo on a 750 x 750 symbol with logo_size 1/4 and box_size 25: cap 187, logo 187 x 75, plate 200 x 100 at (275, 325), logo at (281, 337) |
| Raster.Image.Filled | generate_qr_code.py:60 | the new image has the given size and every pixel the given colour |
| Raster.Image.Paste | generate_qr_code.py:61-64 | every destination pixel inside the source rectangle becomes the blend of its old value and the matching source pixel; pixels outside it keep their value, and the part of the source outside the canvas is dropped |
| Compositor.PastePlate | generate_qr_code.py:56-61 | after the plate paste every in-canvas pixel of the centered plate rectangle is opaque white and every other pixel is unchanged |
| Compositor.AddLogo | generate_qr_code.py:44-64 | without a logo the symbol image is unchanged; with one, the logo has the thumbnail size for the cap, each pixel is the logo blended over white inside the logo rectangle, white in the rest of the plate rectangle and unchanged outside it, so the image changes only inside the plate |

## Left out

- QR encoding through the `qrcode` library (lines 33-41) is foreign code. The symbol image is an input of `AddLogo`.
- Loading and converting the logo file (line 45) is file I/O. The logo comes in as an RGBA `Image`, or `null` when no logo path is given. Loaded images have positive size, hence the precondition `1 <= logo.Width(), logo.Height()`.
- Raster.Image.Thumbnail: Pillow's LANCZOS resampling (line 48) is float pixel arithmetic. The model samples nearest-neighbour instead, and no contract says what the new pixels are.
- Geometry.ThumbnailSize: Pillow's thumbnail code is not part of this model. The body follows its aspect-preserving rule in exact rationals (floor or ceiling, the one closer in aspect ratio, at least 1). The contract relied on is the size bound. Where float rounding breaks a tie differently, the body may differ by one pixel.
- Compositor.AddLogo: a cap of 0 (a logo_size so small that `int(...)` is 0) is excluded by precondition. Pillow's behaviour for a zero-sized thumbnail target is not part of this model.
- Compositor.AddLogo: it does not model the alpha-blend arithmetic of `paste` with a mask (line 64). `blend` is a parameter. The one property required of it is that a fully opaque source pixel replaces the destination. That holds for the plate, which is built opaque (lines 56, 60).
- Compositor.AddLogo: `box_size > 0` is a precondition when a logo is given. `box_size = 0` would raise `ZeroDivisionError` at line 57. With a negative `box_size` Python's floor division gives a side in `[int(1.05*d) + box_size, int(1.05*d))`, below the margin instead of above it; that case is not modelled. The code performs no validation and has no error types, so none are modelled.
- Geometry.LogoCap: `logo_size` is the non-negative rational `num/den`, and the cap is the exact floor of `min(w, h) * num / den`. Line 47 multiplies in doubles, so Python's cap can be one pixel lower. For example, the double nearest 0.29 is slightly below it, so `int(100 * 0.29)` is 28 while `LogoCap(100, 100, 29, 100)` is 29. Negative values of `logo_size` are not modelled either.
- Geometry.WithMargin: it models `int(1.05*d)` as `(105*d)/100`. This agrees with the double computation for pixel-scale sizes, not for arbitrarily large ones.
- The plate colour is hard-coded white, as in the code. Deriving it from `back_color` is only a TODO (line 55).
- Saving the image and printing the confirmation (lines 66-67) are output I/O. The argument parser, the global `ARGS` and `main` (lines 70-128) are command-line plumbing.
- Idempotence of a whole run is not stated separately. Every step is deterministic, and `AddLogo` determines the result from the inputs and the thumbnailed logo's pixels.
