/**
 * Integer geometry of the logo overlay: the logo cap, the size the logo is
 * thumbnailed to, the module-aligned backing plate, and the centered
 * placement of both rectangles on the symbol image.
 *
 * Python's floats are replaced by exact integer arithmetic: the logo size
 * fraction is the rational num/den and `int(1.05 * d)` is `(105 * d) / 100`.
 * Dafny's `/` with a positive divisor is floor division, like Python's `//`,
 * also for negative numerators, which occur when a rectangle is wider than
 * the canvas.
 */
module Geometry {

  function Min(a: int, b: int): int { if a <= b then a else b }

  function Max(a: int, b: int): int { if a <= b then b else a }

  function Abs(a: int): nat { if a < 0 then -a else a }

  /** Width and height of an image, in pixels. */
  datatype Size = Size(w: nat, h: nat)

  /** An axis-aligned rectangle: top-left corner (x, y), width w, height h. */
  datatype Rect = Rect(x: int, y: int, w: int, h: int) {
    predicate Contains(px: int, py: int) {
      x <= px < x + w && y <= py < y + h
    }
  }

  // ---------------------------------------------------------------------
  // Arithmetic helpers (nonlinear facts the solver does not find alone)
  // ---------------------------------------------------------------------

  lemma DivBounds(a: int, b: int)
    requires b > 0
    ensures (a / b) * b <= a < (a / b) * b + b
  {
  }

  lemma MulMonotone(a: int, b: int, c: nat)
    requires a <= b
    ensures a * c <= b * c
  {
  }

  lemma MulStrict(a: int, b: int, c: int)
    requires a < b && c > 0
    ensures a * c < b * c
  {
  }

  /** The least multiple of `b` above `a * b` is `(a + 1) * b`. */
  lemma MultipleStep(k: int, q: int, b: int)
    requires b > 0 && k * b > q * b
    ensures k >= q + 1
  {
    if k <= q {
      MulMonotone(k, q, b);
    }
  }

  /** Euclidean division is unique: a quotient and remainder in range are the ones `/` and `%` give. */
  lemma DivUnique(a: int, b: int, q: int, r: int)
    requires b > 0 && 0 <= r < b && a == q * b + r
    ensures a / b == q && a % b == r
  {
    var q', r' := a / b, a % b;
    assert a == q' * b + r' && 0 <= r' < b;
    assert (q - q') * b == r' - r;
    if q - q' >= 1 {
      MulMonotone(1, q - q', b);
    } else if q' - q >= 1 {
      MulMonotone(1, q' - q, b);
    }
  }

  lemma MultipleMod(k: int, b: int)
    requires b > 0
    ensures (k * b) % b == 0 && (k * b) / b == k
  {
    DivUnique(k * b, b, k, 0);
  }

  // ---------------------------------------------------------------------
  // Logo cap: logo_max_size = int(min(qr_width, qr_height) * logo_size)
  // ---------------------------------------------------------------------

  /**
   * The cap is the floor of min(qrWidth, qrHeight) * num / den: the largest
   * whole number of pixels not above the fraction of the shorter side.
   * With a fraction of at most 1 it never exceeds the shorter side.
   */
  function LogoCap(qrWidth: nat, qrHeight: nat, num: nat, den: nat): (cap: nat)
    requires den > 0
    ensures cap * den <= Min(qrWidth, qrHeight) * num < (cap + 1) * den
    ensures num <= den ==> cap <= Min(qrWidth, qrHeight)
  {
    var side := Min(qrWidth, qrHeight);
    FloorScaled(side, num, den);
    side * num / den
  }

  lemma FloorScaled(side: nat, num: nat, den: nat)
    requires den > 0
    ensures 0 <= side * num / den
    ensures (side * num / den) * den <= side * num < (side * num / den + 1) * den
    ensures num <= den ==> side * num / den <= side
  {
    var a: nat := side * num;
    var c := a / den;
    FloorOf(a, den);
    if num <= den {
      MulMonotone(num, den, side);
      assert a <= side * den;
      if c > side {
        MulStrict(side, c, den);
      }
    }
  }

  /** The floor c of a / b for a >= 0: non-negative, with c * b <= a < (c + 1) * b. */
  lemma FloorOf(a: nat, b: int)
    requires b > 0
    ensures 0 <= a / b
    ensures (a / b) * b <= a < (a / b + 1) * b
  {
    var c := a / b;
    DivBounds(a, b);
    assert (c + 1) * b == c * b + b;
  }

  // ---------------------------------------------------------------------
  // Thumbnail size: logo.thumbnail((cap, cap))
  // ---------------------------------------------------------------------

  /** Ceiling of a / b for b > 0. */
  function CeilDiv(a: nat, b: nat): (c: nat)
    requires b > 0
    ensures (c - 1) * b < a <= c * b
    ensures c == a / b || c == a / b + 1
  {
    var q := a / b;
    FloorOf(a, b);
    assert (q - 1) * b == q * b - b;
    if q * b == a then q else q + 1
  }

  /**
   * Floor and ceiling of exact / d are both less than one step of d away
   * from exact, and neither exceeds a bound that exact / d does not exceed.
   */
  lemma RoundedQuotient(exact: nat, d: nat, bound: nat, n: nat)
    requires d > 0 && exact <= bound * d
    requires n == exact / d || n == CeilDiv(exact, d)
    ensures n <= bound
    ensures Abs(n * d - exact) < d
  {
    DivBounds(exact, d);
    assert (n - 1) * d == n * d - d;
    if n > bound {
      MulMonotone(bound, n - 1, d);
    }
  }

  /** Raising a rounded value of 0 to 1 keeps it within one step d of a positive exact value. */
  lemma ClampToOne(exact: int, d: int, n: nat)
    requires d > 0 && 1 <= exact && Abs(n * d - exact) < d
    ensures Abs(Max(n, 1) * d - exact) < d
  {
    if n == 0 {
      assert n * d == 0;
    }
  }

  /** The products bounding cap * w / h for a portrait logo whose height exceeds the cap. */
  lemma PortraitProducts(w: nat, h: nat, cap: nat)
    requires 1 <= w <= h && 1 <= cap < h
    ensures 1 <= w * cap <= w * h && w * cap <= cap * h
  {
    MulMonotone(1, cap, w);
    MulStrict(cap, h, w);
    MulMonotone(w, h, cap);
  }

  /**
   * New width of a portrait (or square) logo whose height becomes `cap`:
   * of floor and ceiling of cap * w / h, the one whose ratio n / cap is
   * closer to w / h (the floor on a tie), and never below 1.
   */
  function PortraitWidth(w: nat, h: nat, cap: nat): (n: nat)
    requires 1 <= w <= h && 1 <= cap < h
    ensures 1 <= n <= w && n <= cap
    ensures Abs(n * h - w * cap) < h
  {
    var exact := w * cap;
    PortraitProducts(w, h, cap);
    var lo := exact / h;
    var hi := CeilDiv(exact, h);
    var pick := if exact - lo * h <= hi * h - exact then lo else hi;
    RoundedQuotient(exact, h, w, pick);
    RoundedQuotient(exact, h, cap, pick);
    ClampToOne(exact, h, pick);
    Max(pick, 1)
  }

  /** The products bounding cap * h / w for a landscape logo whose width exceeds the cap. */
  lemma LandscapeProducts(w: nat, h: nat, cap: nat)
    requires 1 <= h < w && 1 <= cap < w
    ensures 1 <= cap * h <= h * w && cap * h <= cap * w
  {
    MulMonotone(1, cap, h);
    MulStrict(cap, w, h);
    MulStrict(h, w, cap);
  }

  /**
   * New height of a landscape logo whose width becomes `cap`: of floor and
   * ceiling of cap * h / w, the one whose ratio cap / n is closer to w / h
   * (a floor of 0, whose distance counts as 0, or the floor on a tie), and
   * never below 1.
   */
  function LandscapeHeight(w: nat, h: nat, cap: nat): (n: nat)
    requires 1 <= h < w && 1 <= cap < w
    ensures 1 <= n <= h && n <= cap
    ensures Abs(cap * h - w * n) < w
  {
    var exact := cap * h;
    LandscapeProducts(w, h, cap);
    var lo := exact / w;
    var hi := CeilDiv(exact, w);
    var pick := if lo == 0 || (exact - w * lo) * hi <= (w * hi - exact) * lo then lo else hi;
    RoundedQuotient(exact, w, h, pick);
    RoundedQuotient(exact, w, cap, pick);
    ClampToOne(exact, w, pick);
    assert Max(pick, 1) * w == w * Max(pick, 1);
    Max(pick, 1)
  }

  /**
   * The size a w x h logo is thumbnailed to within a cap x cap box: unchanged
   * when it already fits, otherwise its longer side (the height for a square)
   * becomes the cap and the other side keeps the aspect ratio to within one
   * pixel. It never grows, never exceeds the cap and never becomes empty.
   */
  function ThumbnailSize(w: nat, h: nat, cap: nat): (s: Size)
    requires 1 <= w && 1 <= h && 1 <= cap
    ensures 1 <= s.w <= w && 1 <= s.h <= h
    ensures s.w <= cap && s.h <= cap
    ensures (w <= cap && h <= cap) <==> s == Size(w, h)
    ensures !(w <= cap && h <= cap) ==> Max(s.w, s.h) == cap
    ensures Abs(s.w * h - w * s.h) < Max(w, h)
  {
    if w <= cap && h <= cap then Size(w, h)
    else if w <= h then Size(PortraitWidth(w, h, cap), cap)
    else Size(cap, LandscapeHeight(w, h, cap))
  }

  // ---------------------------------------------------------------------
  // Backing plate: ((int(1.05 * d) // box_size) + 1) * box_size
  // ---------------------------------------------------------------------

  /** int(1.05 * d): the floor of 105% of d, never below d. */
  function WithMargin(d: nat): (g: nat)
    ensures g * 100 <= 105 * d < g * 100 + 100
    ensures d <= g
  {
    (105 * d) / 100
  }

  /**
   * One plate side for a logo side d: a positive multiple of the module
   * size strictly above int(1.05 * d) by at most one module, hence strictly
   * larger than d itself.
   */
  function PlateDim(d: nat, boxSize: int): (p: int)
    requires boxSize > 0
    ensures p > 0 && p % boxSize == 0
    ensures WithMargin(d) < p <= WithMargin(d) + boxSize
    ensures d < p
  {
    var q := WithMargin(d) / boxSize;
    DivBounds(WithMargin(d), boxSize);
    MultipleMod(q + 1, boxSize);
    (q + 1) * boxSize
  }

  /** The width, in pixels, of k modules of boxSize pixels each. */
  function Modules(k: int, boxSize: int): int { k * boxSize }

  /** Each plate side is a whole, positive number of modules. */
  lemma PlateIsWholeModules(d: nat, boxSize: int)
    requires boxSize > 0
    ensures exists k :: k >= 1 && PlateDim(d, boxSize) == Modules(k, boxSize)
  {
    var k := WithMargin(d) / boxSize + 1;
    assert PlateDim(d, boxSize) == Modules(k, boxSize);
  }

  /** The plate side is the least multiple of the module size above int(1.05 * d). */
  lemma PlateDimIsLeast(d: nat, boxSize: int, k: int)
    requires boxSize > 0 && k * boxSize > WithMargin(d)
    ensures PlateDim(d, boxSize) <= k * boxSize
  {
    var q := WithMargin(d) / boxSize;
    DivBounds(WithMargin(d), boxSize);
    MultipleStep(k, q, boxSize);
    MulMonotone(q + 1, k, boxSize);
  }

  /**
   * Floor plus one, not a ceiling: when int(1.05 * d) is already a multiple
   * of the module size, a whole extra module is added.
   */
  lemma PlateDimOnExactMultiple(d: nat, boxSize: int)
    requires boxSize > 0 && WithMargin(d) % boxSize == 0
    ensures PlateDim(d, boxSize) == WithMargin(d) + boxSize
  {
    DivBounds(WithMargin(d), boxSize);
  }

  // ---------------------------------------------------------------------
  // Centering: (qr_side - side) // 2
  // ---------------------------------------------------------------------

  /**
   * Offset that centers a side of length d on a canvas side of length q:
   * the left margin is at most the right one, and at most one pixel less.
   * When the rectangle fits, it lies inside the canvas.
   */
  function CenterOffset(q: int, d: int): (o: int)
    ensures o <= q - d - o <= o + 1
    ensures 0 <= d <= q ==> 0 <= o && o + d <= q
  {
    (q - d) / 2
  }

  /** The offset is the only one with balanced margins: the centering is the floor of the true center. */
  lemma CenterOffsetUnique(q: int, d: int, o: int)
    requires o <= q - d - o <= o + 1
    ensures o == CenterOffset(q, d)
  {
  }

  /** Of two sides l <= p centered on the same canvas side, the shorter lies within the longer. */
  lemma CenteredNested(q: int, l: int, p: int)
    requires l <= p
    ensures CenterOffset(q, p) <= CenterOffset(q, l)
    ensures CenterOffset(q, l) + l <= CenterOffset(q, p) + p
  {
  }

  function CenteredRect(qrWidth: int, qrHeight: int, w: int, h: int): Rect {
    Rect(CenterOffset(qrWidth, w), CenterOffset(qrHeight, h), w, h)
  }

  /**
   * Where the (thumbnailed) logo is pasted: position = (x_center, y_center).
   * The rectangle has the logo's size, its margins on each axis are balanced
   * (the left or top one at most one pixel less), and a logo no larger than
   * the symbol lies inside it.
   */
  function LogoRect(qrWidth: int, qrHeight: int, logoWidth: nat, logoHeight: nat): (r: Rect)
    ensures r.w == logoWidth && r.h == logoHeight
    ensures r.x <= qrWidth - r.w - r.x <= r.x + 1
    ensures r.y <= qrHeight - r.h - r.y <= r.y + 1
    ensures logoWidth <= qrWidth && logoHeight <= qrHeight ==>
              0 <= r.x && r.x + r.w <= qrWidth && 0 <= r.y && r.y + r.h <= qrHeight
  {
    CenteredRect(qrWidth, qrHeight, logoWidth, logoHeight)
  }

  /**
   * Where the backing plate is pasted: bbox_position with bbox_width x
   * bbox_height. Each side is the least multiple of the module size above
   * 105% of the logo's side, and the margins are balanced as for the logo.
   */
  function PlateRect(qrWidth: int, qrHeight: int, logoWidth: nat, logoHeight: nat, boxSize: int): (r: Rect)
    requires boxSize > 0
    ensures r.w % boxSize == 0 && WithMargin(logoWidth) < r.w <= WithMargin(logoWidth) + boxSize
    ensures r.h % boxSize == 0 && WithMargin(logoHeight) < r.h <= WithMargin(logoHeight) + boxSize
    ensures r.x <= qrWidth - r.w - r.x <= r.x + 1
    ensures r.y <= qrHeight - r.h - r.y <= r.y + 1
  {
    CenteredRect(qrWidth, qrHeight, PlateDim(logoWidth, boxSize), PlateDim(logoHeight, boxSize))
  }

  /** Every pixel of the logo rectangle lies in the plate rectangle. */
  lemma LogoInsidePlate(qrWidth: int, qrHeight: int, logoWidth: nat, logoHeight: nat, boxSize: int)
    requires boxSize > 0
    ensures forall x, y :: LogoRect(qrWidth, qrHeight, logoWidth, logoHeight).Contains(x, y) ==>
                           PlateRect(qrWidth, qrHeight, logoWidth, logoHeight, boxSize).Contains(x, y)
  {
    CenteredNested(qrWidth, logoWidth, PlateDim(logoWidth, boxSize));
    CenteredNested(qrHeight, logoHeight, PlateDim(logoHeight, boxSize));
  }

  /**
   * With a fraction of at most 1 the thumbnailed logo always lies inside
   * the symbol image; the plate, which is larger, need not.
   */
  lemma LogoInsideCanvas(qrWidth: nat, qrHeight: nat, num: nat, den: nat, logoWidth: nat, logoHeight: nat)
    requires den > 0 && num <= den
    requires 1 <= logoWidth && 1 <= logoHeight && 1 <= LogoCap(qrWidth, qrHeight, num, den)
    ensures var s := ThumbnailSize(logoWidth, logoHeight, LogoCap(qrWidth, qrHeight, num, den));
            var r := LogoRect(qrWidth, qrHeight, s.w, s.h);
            0 <= r.x && r.x + r.w <= qrWidth && 0 <= r.y && r.y + r.h <= qrHeight
  {
  }

  /**
   * On a canvas side of a whole number of modules, a plate that leaves an
   * even number of modules over starts on a module boundary.
   */
  lemma PlateOffsetOnGrid(canvasModules: int, plateModules: int, boxSize: int)
    requires boxSize > 0 && (canvasModules - plateModules) % 2 == 0
    ensures exists k :: CenterOffset(Modules(canvasModules, boxSize), Modules(plateModules, boxSize)) == Modules(k, boxSize)
  {
    var k := (canvasModules - plateModules) / 2;
    assert Modules(canvasModules, boxSize) - Modules(plateModules, boxSize) == Modules(k, boxSize) * 2;
    assert CenterOffset(Modules(canvasModules, boxSize), Modules(plateModules, boxSize)) == Modules(k, boxSize);
  }

  /** Half of an odd number m of b-pixel modules, rounded down, ends b / 2 pixels past a module line. */
  lemma HalfOfOddModules(m: int, b: int)
    requires b > 0 && m % 2 == 1
    ensures ((m * b) / 2) % b == b / 2
  {
    var j := m / 2;
    var r := b / 2;
    assert m == j * 2 + 1;
    assert m * b == (j * b) * 2 + b;
    assert b == r * 2 + b % 2;
    assert m * b == 2 * (j * b + r) + b % 2;
    DivUnique(m * b, 2, j * b + r, b % 2);
    DivUnique(j * b + r, b, j, r);
  }

  /**
   * The plate's size is module-aligned, but its position is not always:
   * on a canvas side that is a whole number of modules, the centered plate
   * starts on a module boundary when the number of modules left over is
   * even, and b / 2 pixels past one (b the module size) when it is odd.
   * So it is aligned exactly when the leftover is even or a module is one
   * pixel.
   */
  lemma PlateOffsetAlignment(q: int, p: int, boxSize: int)
    requires boxSize > 0 && q % boxSize == 0 && p % boxSize == 0
    ensures CenterOffset(q, p) % boxSize == if (q - p) / boxSize % 2 == 0 then 0 else boxSize / 2
    ensures CenterOffset(q, p) % boxSize == 0 <==> ((q - p) / boxSize % 2 == 0 || boxSize == 1)
  {
    var qm, pm := q / boxSize, p / boxSize;
    var m := qm - pm;
    assert q == Modules(qm, boxSize) && p == Modules(pm, boxSize);
    assert q - p == m * boxSize;
    DivUnique(q - p, boxSize, m, 0);
    if m % 2 == 0 {
      PlateOffsetOnGrid(qm, pm, boxSize);
      var k :| CenterOffset(Modules(qm, boxSize), Modules(pm, boxSize)) == Modules(k, boxSize);
      MultipleMod(k, boxSize);
    } else {
      HalfOfOddModules(m, boxSize);
    }
  }

  /**
   * The same for the plate the overlay actually builds from a logo side d
   * on a symbol side of canvasModules modules.
   */
  lemma PlatePositionOnGrid(canvasModules: int, d: nat, boxSize: int)
    requires boxSize > 0
    ensures var p := PlateDim(d, boxSize);
            CenterOffset(Modules(canvasModules, boxSize), p) % boxSize
              == if (canvasModules - p / boxSize) % 2 == 0 then 0 else boxSize / 2
  {
    PlateIsWholeModules(d, boxSize);
    var k :| k >= 1 && PlateDim(d, boxSize) == Modules(k, boxSize);
    var q := Modules(canvasModules, boxSize);
    MultipleMod(canvasModules, boxSize);
    MultipleMod(k, boxSize);
    assert q - PlateDim(d, boxSize) == Modules(canvasModules - k, boxSize);
    MultipleMod(canvasModules - k, boxSize);
    PlateOffsetAlignment(q, PlateDim(d, boxSize), boxSize);
  }

  // ---------------------------------------------------------------------
  // The documented scenario
  // ---------------------------------------------------------------------

  /**
   * A 500 x 200 logo on a 750 x 750 symbol with logo_size = 1/4 and
   * box_size = 25: cap 187, logo 187 x 75, plate 200 x 100 at (275, 325),
   * logo at (281, 337).
   */
  lemma DocumentedScenario()
    ensures LogoCap(750, 750, 1, 4) == 187
    ensures ThumbnailSize(500, 200, 187) == Size(187, 75)
    ensures WithMargin(187) == 196 && WithMargin(75) == 78
    ensures PlateDim(187, 25) == 200 && PlateDim(75, 25) == 100
    ensures PlateRect(750, 750, 187, 75, 25) == Rect(275, 325, 200, 100)
    ensures LogoRect(750, 750, 187, 75) == Rect(281, 337, 187, 75)
  {
  }

  /** An exact multiple still gets an extra module: int(1.05 * 20) = 21 gives 42, not 21, with box_size 21. */
  lemma ExtraModuleExample()
    ensures WithMargin(20) == 21 && PlateDim(20, 21) == 42
  {
    PlateDimOnExactMultiple(20, 21);
  }

  /**
   * With logo_size = 1 a 100 x 100 logo on a 100 x 100 symbol gets a
   * 125 x 125 plate (box_size 25) at offset -13: the plate overhangs the
   * canvas and the paste clips it.
   */
  lemma PlateOverhangsExample()
    ensures LogoCap(100, 100, 1, 1) == 100 && ThumbnailSize(100, 100, 100) == Size(100, 100)
    ensures PlateRect(100, 100, 100, 100, 25) == Rect(-13, -13, 125, 125)
  {
  }
}
