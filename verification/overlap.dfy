/** The row scan of `detectOverlap` (entrypoints/background.ts, lines 26-64):
    a declarative reference definition, the loop that implements it, and the
    properties of the measured overlap. */
module OverlapScan {
  import opened Raster

  /** Rows always scanned before a mismatch may end the scan. */
  const MinNavbarCheck: nat := 70

  /** Number of matching rows among rows `0 .. k-1` of the strips. */
  function MatchingRows(a: Image, b: Image, k: nat): (r: nat)
    ensures r <= k
  {
    if k == 0 then 0
    else MatchingRows(a, b, k - 1) + (if RowMatches(a, b, k - 1) then 1 else 0)
  }

  /** The scan ends at row `y`: the row does not match, it lies at or past
      `MinNavbarCheck`, and some earlier row has matched. */
  predicate StopsAt(a: Image, b: Image, y: nat)
  {
    y >= MinNavbarCheck && !RowMatches(a, b, y) && MatchingRows(a, b, y) > 0
  }

  /** The first row at or after `y` where the scan stops, or the strip height
      when it runs to the end. */
  function FirstStop(a: Image, b: Image, y: nat): (r: nat)
    requires y <= a.height
    ensures y <= r <= a.height
    ensures r < a.height ==> StopsAt(a, b, r)
    ensures forall j :: y <= j < r ==> !StopsAt(a, b, j)
    decreases a.height - y
  {
    if y == a.height then y
    else if StopsAt(a, b, y) then y
    else FirstStop(a, b, y + 1)
  }

  /** Number of rows the scan examines before it ends (the stopping row excluded). */
  function ScanLength(a: Image, b: Image): (n: nat)
    ensures n <= a.height
  {
    FirstStop(a, b, 0)
  }

  /** The overlap measured between two strips: the matching rows before the scan ends. */
  function StripOverlap(a: Image, b: Image): (r: nat)
    ensures r <= ScanLength(a, b) <= a.height
  {
    MatchingRows(a, b, ScanLength(a, b))
  }

  /** The row loop of lines 31-64 from row `y` on, with `acc` matching rows
      counted so far: a matching row adds one, a non-matching row at or past
      `MinNavbarCheck` after a match ends the scan. */
  function ScanFrom(a: Image, b: Image, y: nat, acc: nat): (r: nat)
    requires y <= a.height
    ensures acc <= r <= acc + (a.height - y)
    decreases a.height - y
  {
    if y == a.height then acc
    else if RowMatches(a, b, y) then ScanFrom(a, b, y + 1, acc + 1)
    else if y >= MinNavbarCheck && acc > 0 then acc
    else ScanFrom(a, b, y + 1, acc)
  }

  /** `detectOverlap(last, current)`: both strips are the BOTTOM rows of their image. */
  function Overlap(last: Image, current: Image): (r: nat)
    ensures r <= StripHeight(last.height)
  {
    ScanFrom(BottomStrip(last), BottomStrip(current), 0, 0)
  }

  /** The loop, resumed at any row it can reach, finishes with the matching
      rows before the first row where the reference scan stops. */
  lemma {:induction false} ScanFromAgrees(a: Image, b: Image, y: nat)
    requires y <= a.height
    ensures ScanFrom(a, b, y, MatchingRows(a, b, y)) == MatchingRows(a, b, FirstStop(a, b, y))
    decreases a.height - y
  {
    if y < a.height {
      var m := MatchingRows(a, b, y);
      var matches := RowMatches(a, b, y);
      assert MatchingRows(a, b, y + 1) == m + (if matches then 1 else 0);
      if StopsAt(a, b, y) {
        assert FirstStop(a, b, y) == y;
        assert ScanFrom(a, b, y, m) == m;
      } else {
        assert FirstStop(a, b, y) == FirstStop(a, b, y + 1);
        assert ScanFrom(a, b, y, m) == ScanFrom(a, b, y + 1, MatchingRows(a, b, y + 1));
        ScanFromAgrees(a, b, y + 1);
      }
    }
  }

  /** The loop form and the declarative form of the scan agree on every pair
      of images. */
  lemma OverlapIsStripOverlap(last: Image, current: Image)
    ensures Overlap(last, current) == StripOverlap(BottomStrip(last), BottomStrip(current))
  {
    ScanFromAgrees(BottomStrip(last), BottomStrip(current), 0);
  }

  /** The inner loop of lines 38-50: counts matching pixels of row `y`. */
  method CountMatchingPixels(a: Image, b: Image, y: nat) returns (m: nat)
    ensures m == MatchCount(a, b, y, a.width)
  {
    m := 0;
    var x := 0;
    while x < a.width
      invariant x <= a.width
      invariant m == MatchCount(a, b, y, x)
    {
      var p := At(a, y * a.width + x);
      var q := At(b, y * b.width + x);
      if p.Some? && q.Some? && PixelsMatch(p.value, q.value) {
        m := m + 1;
      }
      x := x + 1;
    }
  }

  /** The row scan of lines 31-64, with its early `break`. */
  method DetectOverlap(last: Image, current: Image) returns (overlap: nat)
    ensures overlap == Overlap(last, current)
    ensures overlap <= StripHeight(last.height)
  {
    var a := BottomStrip(last);
    var b := BottomStrip(current);
    overlap := 0;
    var y := 0;
    while y < a.height
      invariant y <= a.height
      invariant overlap == MatchingRows(a, b, y)
      invariant forall j :: 0 <= j < y ==> !StopsAt(a, b, j)
    {
      var m := CountMatchingPixels(a, b, y);
      if 10 * m > 9 * a.width {
        overlap := overlap + 1;
      } else if y >= MinNavbarCheck && overlap > 0 {
        assert StopsAt(a, b, y);
        assert FirstStop(a, b, 0) == y;
        OverlapIsStripOverlap(last, current);
        return;
      }
      y := y + 1;
    }
    assert FirstStop(a, b, 0) == a.height;
    OverlapIsStripOverlap(last, current);
  }

  /** The scan never ends before row `MinNavbarCheck`; when it ends early it
      ends on a non-matching row after at least one match, and every earlier
      row past `MinNavbarCheck` either matched or came before the first match. */
  lemma EarlyStopRule(a: Image, b: Image)
    ensures ScanLength(a, b) < a.height ==>
              && ScanLength(a, b) >= MinNavbarCheck
              && !RowMatches(a, b, ScanLength(a, b))
              && StripOverlap(a, b) > 0
    ensures forall y :: MinNavbarCheck <= y < ScanLength(a, b) && MatchingRows(a, b, y) > 0
                        ==> RowMatches(a, b, y)
  {
    var n := ScanLength(a, b);
    forall y | MinNavbarCheck <= y < n && MatchingRows(a, b, y) > 0
      ensures RowMatches(a, b, y)
    {
      assert !StopsAt(a, b, y);
    }
  }

  /** The scan ends at the first non-matching row at or past `MinNavbarCheck`
      that follows a match: no such row is ever skipped. */
  lemma StopsAtFirstQualifyingRow(a: Image, b: Image, y: nat)
    requires y < a.height && y >= MinNavbarCheck
    requires !RowMatches(a, b, y) && MatchingRows(a, b, y) > 0
    ensures ScanLength(a, b) <= y
  {
    assert StopsAt(a, b, y);
  }

  lemma {:induction false} AllMatchingRows(a: Image, b: Image, k: nat)
    requires k <= a.height
    requires forall y :: 0 <= y < a.height ==> RowMatches(a, b, y)
    ensures MatchingRows(a, b, k) == k
  {
    if k > 0 {
      AllMatchingRows(a, b, k - 1);
    }
  }

  /** When every row matches, the overlap is the full strip height: the bound
      of `Overlap` is reached. */
  lemma AllRowsMatch(a: Image, b: Image)
    requires forall y :: 0 <= y < a.height ==> RowMatches(a, b, y)
    ensures ScanLength(a, b) == a.height
    ensures StripOverlap(a, b) == a.height
  {
    AllMatchingRows(a, b, a.height);
  }

  lemma {:induction false} NoMatchingRows(a: Image, b: Image, k: nat)
    requires k <= a.height
    requires forall y :: 0 <= y < a.height ==> !RowMatches(a, b, y)
    ensures MatchingRows(a, b, k) == 0
  {
    if k > 0 {
      NoMatchingRows(a, b, k - 1);
    }
  }

  /** When no row matches, the whole strip is scanned and the overlap is 0. */
  lemma NoRowMatches(a: Image, b: Image)
    requires forall y :: 0 <= y < a.height ==> !RowMatches(a, b, y)
    ensures ScanLength(a, b) == a.height
    ensures StripOverlap(a, b) == 0
  {
    NoMatchingRows(a, b, a.height);
    if ScanLength(a, b) < a.height {
      NoMatchingRows(a, b, ScanLength(a, b));
      assert false;
    }
  }

  /** Rows `0 .. k-1` match and row `k >= MinNavbarCheck` does not: the
      overlap is exactly `k`. */
  lemma MatchingPrefix(a: Image, b: Image, k: nat)
    requires MinNavbarCheck <= k < a.height
    requires forall y :: 0 <= y < k ==> RowMatches(a, b, y)
    requires !RowMatches(a, b, k)
    ensures ScanLength(a, b) == k
    ensures StripOverlap(a, b) == k
  {
    PrefixRows(a, b, k, k);
    assert StopsAt(a, b, k);
  }

  lemma {:induction false} PrefixRows(a: Image, b: Image, k: nat, j: nat)
    requires j <= k
    requires forall y :: 0 <= y < k ==> RowMatches(a, b, y)
    ensures MatchingRows(a, b, j) == j
  {
    if j > 0 {
      PrefixRows(a, b, k, j - 1);
    }
  }

  /** Two captures whose bottom strips are identical (in particular a capture
      compared with itself) overlap by the full strip height. */
  lemma IdenticalStripsOverlapFully(last: Image, current: Image)
    requires BottomStrip(last) == BottomStrip(current)
    requires last.width > 0
    ensures Overlap(last, current) == StripHeight(last.height)
  {
    var a := BottomStrip(last);
    forall y | 0 <= y < a.height
      ensures RowMatches(a, a, y)
    {
      SelfRowMatches(a, y);
    }
    AllRowsMatch(a, a);
    OverlapIsStripOverlap(last, current);
  }

  /** The overlap depends only on the bottom `floor(0.3 * height)` rows of
      EACH image: the rows above the strips may differ arbitrarily. */
  lemma OverlapReadsOnlyBottomStrips(l1: Image, c1: Image, l2: Image, c2: Image)
    requires l1.width == l2.width && l1.height == l2.height
    requires c1.width == c2.width && c1.height == c2.height
    requires forall k :: StripStart(l1) <= k < |l1.data| ==> l1.data[k] == l2.data[k]
    requires forall k :: StripStart(c1) <= k < |c1.data| ==> c1.data[k] == c2.data[k]
    ensures Overlap(l1, c1) == Overlap(l2, c2)
  {
    assert BottomStrip(l1).data == BottomStrip(l2).data;
    assert BottomStrip(c1).data == BottomStrip(c2).data;
  }
}
