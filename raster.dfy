/**
 * RGBA rasters and the two image operations the overlay performs on them:
 * pasting one image onto another at an offset with the source's alpha as
 * mask (clipped to the destination), and shrinking an image in place to fit
 * a square box.
 */
module Raster {
  import opened Geometry

  newtype Channel = c: int | 0 <= c < 256

  datatype Pixel = Pixel(r: Channel, g: Channel, b: Channel, a: Channel)

  /** The backing plate's colour: RGB white, made fully opaque by the conversion to RGBA. */
  const White: Pixel := Pixel(255, 255, 255, 255)

  predicate Opaque(p: Pixel) { p.a == 255 }

  /**
   * The per-pixel rule of a paste whose mask is the source's alpha band:
   * `blend(dst, src)` is the new destination pixel. Its arithmetic is not
   * modelled; the one property relied on is that a fully opaque source
   * pixel replaces the destination pixel.
   */
  ghost predicate OpaqueReplaces(blend: (Pixel, Pixel) -> Pixel) {
    forall dst, src :: Opaque(src) ==> blend(dst, src) == src
  }

  /** An RGBA image; px[y, x] is the pixel in row y, column x. */
  class Image {
    var px: array2<Pixel>

    function Width(): nat
      reads this
    {
      px.Length1
    }

    function Height(): nat
      reads this
    {
      px.Length0
    }

    /** A new width x height image with every pixel set to `color`. */
    constructor Filled(width: nat, height: nat, color: Pixel)
      ensures Width() == width && Height() == height && fresh(px)
      ensures forall y, x :: 0 <= y < height && 0 <= x < width ==> px[y, x] == color
    {
      px := new Pixel[height, width]((y, x) => color);
    }

    /**
     * Pastes `src` with its top-left corner at (left, top), using `src` as
     * its own mask: every pixel of this image covered by the source
     * rectangle becomes `blend(old pixel, source pixel)`; the parts of the
     * source outside this image are dropped, and every pixel outside the
     * rectangle keeps its value.
     */
    method Paste(src: Image, left: int, top: int, blend: (Pixel, Pixel) -> Pixel)
      requires src.px != px
      modifies px
      ensures forall y, x :: 0 <= y < Height() && 0 <= x < Width() ==>
        px[y, x] == if Rect(left, top, src.Width(), src.Height()).Contains(x, y)
                    then blend(old(px[y, x]), src.px[y - top, x - left])
                    else old(px[y, x])
    {
      var area := Rect(left, top, src.Width(), src.Height());
      forall y, x | 0 <= y < px.Length0 && 0 <= x < px.Length1 && area.Contains(x, y) {
        px[y, x] := blend(px[y, x], src.px[y - top, x - left]);
      }
    }

    /**
     * Shrinks the image in place to fit a cap x cap box, keeping its aspect
     * ratio; an image that already fits is left as it is. The new pixels
     * are resampled from the old ones; which values they take is not part
     * of the contract.
     */
    method Thumbnail(cap: nat)
      requires 1 <= cap && 1 <= Width() && 1 <= Height()
      modifies this
      ensures Size(Width(), Height()) == ThumbnailSize(old(Width()), old(Height()), cap)
      ensures old(Width()) <= cap && old(Height()) <= cap ==> px == old(px)
      ensures px == old(px) || fresh(px)
    {
      var size := ThumbnailSize(px.Length1, px.Length0, cap);
      if size.w != px.Length1 || size.h != px.Length0 {
        var source := px;
        var resized := new Pixel[size.h, size.w];
        forall y, x | 0 <= y < size.h && 0 <= x < size.w {
          resized[y, x] := source[ScaledIndex(y, size.h, source.Length0), ScaledIndex(x, size.w, source.Length1)];
        }
        px := resized;
      }
    }
  }

  /** Index i of n, mapped proportionally onto an axis of m (nearest-neighbour sampling). */
  function ScaledIndex(i: nat, n: nat, m: nat): (j: nat)
    requires i < n && 1 <= m
    ensures j < m
  {
    ScaledIndexInRange(i, n, m);
    i * m / n
  }

  lemma ScaledIndexInRange(i: nat, n: nat, m: nat)
    requires i < n && 1 <= m
    ensures i * m / n < m
  {
    MulStrict(i, n, m);
    DivBounds(i * m, n);
    if i * m / n >= m {
      MulMonotone(m, i * m / n, n);
    }
  }
}
