/**
 * The logo overlay of generate_qr_code_for_link: after the encoder has
 * rendered the symbol image, an optional logo is shrunk to a fraction of the
 * symbol's shorter side, a white module-aligned backing plate is pasted at
 * the center, and the logo is pasted, centered, on top of it.
 *
 * The symbol image comes in as `img` (the encoder is not modelled); the
 * logo comes in already loaded and converted to RGBA, or as null when no
 * logo path was given.
 */
module Compositor {
  import opened Geometry
  import opened Raster

  /**
   * generate_qr_code_for_link (generate_qr_code.py:56-61): a new bbox_width x bbox_height image of opaque white,
   * pasted with itself as mask at the centered bbox_position. Pixels of the
   * symbol inside the plate rectangle become white; all others keep their
   * value.
   */
  method PastePlate(img: Image, plateWidth: nat, plateHeight: nat, blend: (Pixel, Pixel) -> Pixel)
    requires OpaqueReplaces(blend)
    modifies img.px
    ensures forall y, x :: 0 <= y < img.Height() && 0 <= x < img.Width() ==>
      img.px[y, x] == if CenteredRect(img.Width(), img.Height(), plateWidth, plateHeight).Contains(x, y)
                      then White
                      else old(img.px[y, x])
  {
    var plate := new Image.Filled(plateWidth, plateHeight, White);
    img.Paste(plate, CenterOffset(img.Width(), plateWidth), CenterOffset(img.Height(), plateHeight), blend);
  }

  /**
   * generate_qr_code_for_link (generate_qr_code.py:44-64). Without a logo the symbol image is left exactly as the
   * encoder produced it. With one, the logo is thumbnailed to the cap
   * int(min(width, height) * num / den), and afterwards each pixel of the
   * symbol is: the logo pixel blended over white inside the centered logo
   * rectangle; white in the rest of the centered plate rectangle, whose
   * sides are PlateDim of the logo's; and its old value everywhere else.
   */
  method AddLogo(img: Image, logo: Image?, num: nat, den: nat, boxSize: int, blend: (Pixel, Pixel) -> Pixel)
    requires den > 0
    requires OpaqueReplaces(blend)
    requires logo != null ==> logo != img && logo.px != img.px
    requires logo != null ==> 1 <= logo.Width() && 1 <= logo.Height()
    requires logo != null ==> 1 <= LogoCap(img.Width(), img.Height(), num, den)
    requires logo != null ==> boxSize > 0
    modifies img.px, if logo == null then {} else {logo}
    ensures img.px == old(img.px)
    ensures logo == null ==> forall y, x :: 0 <= y < img.Height() && 0 <= x < img.Width() ==>
      img.px[y, x] == old(img.px[y, x])
    ensures logo != null ==>
      Size(logo.Width(), logo.Height())
        == ThumbnailSize(old(logo.Width()), old(logo.Height()), LogoCap(img.Width(), img.Height(), num, den))
    ensures logo != null ==>
      var logoAt := LogoRect(img.Width(), img.Height(), logo.Width(), logo.Height());
      var plateAt := PlateRect(img.Width(), img.Height(), logo.Width(), logo.Height(), boxSize);
      forall y, x :: 0 <= y < img.Height() && 0 <= x < img.Width() ==>
        img.px[y, x] == if logoAt.Contains(x, y) then blend(White, logo.px[y - logoAt.y, x - logoAt.x])
                        else if plateAt.Contains(x, y) then White
                        else old(img.px[y, x])
    ensures logo != null ==>
      var plateAt := PlateRect(img.Width(), img.Height(), logo.Width(), logo.Height(), boxSize);
      forall y, x :: 0 <= y < img.Height() && 0 <= x < img.Width() && !plateAt.Contains(x, y) ==>
        img.px[y, x] == old(img.px[y, x])
  {
    if logo != null {
      var qrWidth, qrHeight := img.Width(), img.Height();
      var logoMaxSize := LogoCap(qrWidth, qrHeight, num, den);
      logo.Thumbnail(logoMaxSize);
      var logoWidth, logoHeight := logo.Width(), logo.Height();
      var position := LogoRect(qrWidth, qrHeight, logoWidth, logoHeight);

      var bboxWidth, bboxHeight := PlateDim(logoWidth, boxSize), PlateDim(logoHeight, boxSize);
      ghost var plateAt := PlateRect(qrWidth, qrHeight, logoWidth, logoHeight, boxSize);
      PastePlate(img, bboxWidth, bboxHeight, blend);
      label plated:

      img.Paste(logo, position.x, position.y, blend);
      LogoInsidePlate(qrWidth, qrHeight, logoWidth, logoHeight, boxSize);
      forall y, x | 0 <= y < qrHeight && 0 <= x < qrWidth
        ensures img.px[y, x] == if position.Contains(x, y) then blend(White, logo.px[y - position.y, x - position.x])
                                else if plateAt.Contains(x, y) then White
                                else old(img.px[y, x])
      {
        assert old@plated(img.px[y, x]) == if plateAt.Contains(x, y) then White else old(img.px[y, x]);
      }
    }
  }
}
