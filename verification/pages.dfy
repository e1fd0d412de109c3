/** `calculateTotalPages` (entrypoints/background.ts, lines 77-105): how many
    viewport captures cover the document. Heights are whole CSS pixels and
    `0.9 * viewportHeight` is kept exact by scaling every length by 10. */
module Pages {
  import opened Options

  /** The measurements the injected script reads from the page. */
  datatype Geometry = Geometry(
    rootScrollHeight: nat,   // document.documentElement.scrollHeight
    bodyScrollHeight: nat,   // document.body.scrollHeight
    rootOffsetHeight: nat,   // document.documentElement.offsetHeight
    bodyOffsetHeight: nat,   // document.body.offsetHeight
    rootClientHeight: nat,   // document.documentElement.clientHeight
    innerHeight: nat)        // window.innerHeight

  /** A page total as JavaScript sees it: a whole number, or Infinity/NaN
      (from a zero-height viewport), which no page number ever reaches. */
  datatype Total = Finite(n: nat) | NotFinite

  function Max(x: nat, y: nat): nat { if x < y then y else x }

  /** The document height: the largest of the five measurements. */
  function DocumentHeight(g: Geometry): (d: nat)
    ensures d >= g.rootScrollHeight && d >= g.bodyScrollHeight && d >= g.rootOffsetHeight
    ensures d >= g.bodyOffsetHeight && d >= g.rootClientHeight
    ensures d in {g.rootScrollHeight, g.bodyScrollHeight, g.rootOffsetHeight,
                  g.bodyOffsetHeight, g.rootClientHeight}
  {
    Max(Max(Max(Max(g.rootScrollHeight, g.bodyScrollHeight), g.rootOffsetHeight),
            g.bodyOffsetHeight), g.rootClientHeight)
  }

  /** `Math.ceil(d / (v - 0.1 * v))`: the least page count whose nominal
      steps of `0.9 * v` cover `d`. */
  function PagesFor(d: nat, v: nat): (n: nat)
    requires v > 0
    ensures 10 * d <= 9 * v * n
    ensures n == 0 || 9 * v * (n - 1) < 10 * d
  {
    var q := (10 * d + 9 * v - 1) / (9 * v);
    var r := (10 * d + 9 * v - 1) % (9 * v);
    assert 10 * d + 9 * v - 1 == 9 * v * q + r;
    q
  }

  /** The page total the session starts from. A missing or non-numeric script
      result falls back to 1. */
  function TotalPages(result: Option<Geometry>): (t: Total)
    ensures result.None? ==> t == Finite(1)
    ensures result.Some? && result.value.innerHeight == 0 ==> t == NotFinite
    ensures result.Some? && result.value.innerHeight > 0 ==>
              t.Finite? &&
              10 * DocumentHeight(result.value) <= 9 * result.value.innerHeight * t.n &&
              (t.n == 0 || 9 * result.value.innerHeight * (t.n - 1) < 10 * DocumentHeight(result.value))
  {
    match result
    case None => Finite(1)
    case Some(g) =>
      if g.innerHeight == 0 then NotFinite
      else Finite(PagesFor(DocumentHeight(g), g.innerHeight))
  }

  /** A non-empty document in a non-empty viewport needs at least one page;
      an empty one gives 0. */
  lemma PagesPositive(d: nat, v: nat)
    requires v > 0
    ensures d > 0 <==> PagesFor(d, v) >= 1
  {
  }

  lemma MulMonotone(k: nat, x: int, y: int)
    requires x <= y
    ensures k * x <= k * y
  {
  }

  /** For a fixed viewport the page count never decreases as the document grows. */
  lemma PagesMonotone(d1: nat, d2: nat, v: nat)
    requires v > 0 && d1 <= d2
    ensures PagesFor(d1, v) <= PagesFor(d2, v)
  {
    var n1 := PagesFor(d1, v);
    var n2 := PagesFor(d2, v);
    if n1 > n2 {
      MulMonotone(9 * v, n2, n1 - 1);
      assert false;
    }
  }

  /** A 2500px document in a 1000px viewport needs 3 captures (steps of 900px). */
  lemma DocumentOf2500In1000Viewport(g: Geometry)
    requires g.innerHeight == 1000 && DocumentHeight(g) == 2500
    ensures TotalPages(Some(g)) == Finite(3)
  {
  }

  /** Every measured total is at least 1 once the page and viewport have height. */
  lemma MeasuredTotalAtLeastOne(g: Geometry)
    requires g.innerHeight > 0 && DocumentHeight(g) > 0
    ensures TotalPages(Some(g)).Finite? && TotalPages(Some(g)).n >= 1
  {
    PagesPositive(DocumentHeight(g), g.innerHeight);
  }
}
