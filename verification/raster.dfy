/** A value that may be missing (`undefined`, a failed call, no previous capture). */
module Options {
  datatype Option<+T> = None | Some(value: T)
}

/** Decoded RGBA captures and the pixel/row comparator of `detectOverlap`
    (entrypoints/background.ts, lines 9-65). */
module Raster {
  import opened Options

  /** One colour channel of an RGBA pixel, as stored in `ImageData.data`. */
  type Channel = c: int | 0 <= c < 256

  datatype Pixel = Pixel(r: Channel, g: Channel, b: Channel, a: Channel)

  /** A decoded image: `width * height` pixels stored row-major, the layout of
      `ImageData` (each pixel being four consecutive bytes there). */
  datatype Grid = Grid(width: nat, height: nat, data: seq<Pixel>)

  /** `w * h`, as `h` rows of `w` pixels. Stated by repetition so that the
      well-formedness of every image stays a linear fact. */
  function Area(w: nat, h: nat): nat
  {
    if h == 0 then 0 else Area(w, h - 1) + w
  }

  lemma {:induction false} AreaIsProduct(w: nat, h: nat)
    ensures Area(w, h) == w * h
  {
    if h > 0 {
      AreaIsProduct(w, h - 1);
      assert w * h == w * (h - 1) + w;
    }
  }

  /** Stacking `a` rows on top of `b` rows. */
  lemma {:induction false} AreaSplit(w: nat, a: nat, b: nat)
    ensures Area(w, a + b) == Area(w, a) + Area(w, b)
  {
    if b > 0 {
      AreaSplit(w, a, b - 1);
    }
  }

  /** A well-formed decoded capture. */
  type Image = g: Grid | |g.data| == Area(g.width, g.height) witness Grid(0, 0, [])

  /** Per-channel intensity difference below which two pixels are alike. */
  const Threshold: nat := 20

  function Diff(x: int, y: int): (d: nat)
    ensures d == x - y || d == y - x
  {
    if x < y then y - x else x - y
  }

  /** Two pixels match when red, green and blue each differ by less than
      `Threshold`; alpha is not consulted. */
  predicate PixelsMatch(p: Pixel, q: Pixel)
  {
    Diff(p.r, q.r) < Threshold && Diff(p.g, q.g) < Threshold && Diff(p.b, q.b) < Threshold
  }

  lemma PixelMatchIgnoresAlpha(p: Pixel, q: Pixel, a1: Channel, a2: Channel)
    ensures PixelsMatch(p, q) <==> PixelsMatch(p.(a := a1), q.(a := a2))
    ensures PixelsMatch(p, q) <==>
              (-20 < p.r - q.r < 20 && -20 < p.g - q.g < 20 && -20 < p.b - q.b < 20)
  {
  }

  /** Height of the strip `getImageData` reads: `Math.floor(height * 0.3)`. */
  function StripHeight(h: nat): (p: nat)
    ensures p <= h
    ensures 10 * p <= 3 * h < 10 * (p + 1)
  {
    3 * h / 10
  }

  /** Index of the first pixel of the bottom strip. */
  function StripStart(img: Image): (k: nat)
    ensures k + Area(img.width, StripHeight(img.height)) == |img.data|
  {
    var p := StripHeight(img.height);
    AreaSplit(img.width, img.height - p, p);
    Area(img.width, img.height - p)
  }

  /** The bottom `floor(0.3 * height)` rows of a capture, full width: the
      region `getImageData(0, height - portion, width, portion)` returns. */
  function BottomStrip(img: Image): (s: Image)
    ensures s.width == img.width
    ensures s.height == StripHeight(img.height)
    ensures s.data == img.data[StripStart(img)..]
    ensures |s.data| <= |img.data|
  {
    Grid(img.width, StripHeight(img.height), img.data[StripStart(img)..])
  }

  /** Pixel `(x, y)` of the strip is pixel `(x, height - portion + y)` of the
      capture: the strip is made of the capture's bottom rows, in order.
      (`Area(w, y)` is `y * w`, the index where row `y` starts.) */
  lemma StripRowIsImageRow(img: Image, y: nat, x: nat)
    requires y < StripHeight(img.height) && x < img.width
    ensures var s, w, p := BottomStrip(img), img.width, StripHeight(img.height);
            && Area(w, y) + x < |s.data|
            && Area(w, img.height - p + y) + x < |img.data|
            && s.data[Area(w, y) + x] == img.data[Area(w, img.height - p + y) + x]
  {
    var w, p := img.width, StripHeight(img.height);
    AreaSplit(w, y + 1, p - y - 1);
    AreaSplit(w, img.height - p + y + 1, p - y - 1);
    AreaSplit(w, img.height - p, y);
  }

  /** Pixel `k` of the flat buffer, or `None` where JavaScript reads `undefined`. */
  function At(img: Image, k: nat): Option<Pixel>
  {
    if k < |img.data| then Some(img.data[k]) else None
  }

  /** Column `x` of row `y` matches. Both buffers are indexed with their OWN
      width; a read past the end of either yields `undefined`, whose difference
      is NaN, so the pixel does not match. */
  predicate MatchAt(a: Image, b: Image, y: nat, x: nat)
  {
    var p := At(a, y * a.width + x);
    var q := At(b, y * b.width + x);
    p.Some? && q.Some? && PixelsMatch(p.value, q.value)
  }

  /** Number of matching columns among the first `n` of row `y`. */
  function MatchCount(a: Image, b: Image, y: nat, n: nat): (m: nat)
    ensures m <= n
  {
    if n == 0 then 0
    else MatchCount(a, b, y, n - 1) + (if MatchAt(a, b, y, n - 1) then 1 else 0)
  }

  /** Row `y` matches when strictly more than 90% of the `a.width` columns
      match: `matching / width > 0.9`, i.e. `10 * matching > 9 * width`. */
  predicate RowMatches(a: Image, b: Image, y: nat)
  {
    10 * MatchCount(a, b, y, a.width) > 9 * a.width
  }

  /** A matching row needs a non-empty strip and at least one matching pixel:
      with width 0 the quotient is NaN and the row never matches. */
  lemma RowMatchNeedsPixels(a: Image, b: Image, y: nat)
    ensures RowMatches(a, b, y) ==> a.width > 0 && MatchCount(a, b, y, a.width) > 9 * a.width / 10
    ensures a.width == 0 ==> !RowMatches(a, b, y)
  {
  }

  lemma RowIndexInRange(y: nat, x: nat, w: nat, h: nat)
    requires y < h && x < w
    ensures y * w + x < h * w
  {
    assert y * w + x < y * w + w == (y + 1) * w;
    assert (y + 1) * w <= h * w;
  }

  /** Within an image every pixel is compared with itself, so all columns match. */
  lemma {:induction false} SelfMatchCount(a: Image, y: nat, n: nat)
    requires y < a.height && n <= a.width
    ensures MatchCount(a, a, y, n) == n
  {
    if n > 0 {
      SelfMatchCount(a, y, n - 1);
      RowIndexInRange(y, n - 1, a.width, a.height);
      AreaIsProduct(a.width, a.height);
      assert MatchAt(a, a, y, n - 1);
    }
  }

  /** Every row of an image matches the same row of the same image, as long
      as the image has at least one column. */
  lemma SelfRowMatches(a: Image, y: nat)
    requires y < a.height && a.width > 0
    ensures RowMatches(a, a, y)
  {
    SelfMatchCount(a, y, a.width);
  }
}
