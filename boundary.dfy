/** The boundary detector (main.py:126-157): counts light pixels per
    column and per row, keeps the columns whose count exceeds 105 and the
    rows whose count exceeds 100, and reports the smallest and largest
    kept index of each axis, with the sentinel (axis length, 0) for an
    axis where nothing is kept. */
module Boundary {
  import opened Pixels

  const ColumnThreshold: nat := 105
  const RowThreshold: nat := 100

  /** selected_area = [min_w, max_w, min_h, max_h]. */
  datatype Area = Area(minW: int, maxW: int, minH: int, maxH: int)

  /** The (min, max) pair of one axis. */
  datatype Extent = Extent(lo: int, hi: int)

  // ---------------------------------------------------------------------
  // Counting light pixels

  /** Number of light pixels in column j among rows 0 .. n-1. */
  function ColCount(img: array2<Gray>, j: int, n: int): nat
    reads img
    requires 0 <= j < img.Length1 && 0 <= n <= img.Length0
    decreases n
  {
    if n == 0 then 0
    else ColCount(img, j, n - 1) + (if IsLight(img[n - 1, j]) then 1 else 0)
  }

  /** Number of light pixels in row i among columns 0 .. m-1. */
  function RowCount(img: array2<Gray>, i: int, m: int): nat
    reads img
    requires 0 <= i < img.Length0 && 0 <= m <= img.Length1
    decreases m
  {
    if m == 0 then 0
    else RowCount(img, i, m - 1) + (if IsLight(img[i, m - 1]) then 1 else 0)
  }

  /** A column is kept when more than 105 of its pixels are light. */
  predicate ColumnQualifies(img: array2<Gray>, j: int)
    reads img
    requires 0 <= j < img.Length1
  {
    ColCount(img, j, img.Length0) > ColumnThreshold
  }

  /** A row is kept when more than 100 of its pixels are light. */
  predicate RowQualifies(img: array2<Gray>, i: int)
    reads img
    requires 0 <= i < img.Length0
  {
    RowCount(img, i, img.Length1) > RowThreshold
  }

  function SumSeq(s: seq<nat>): nat {
    if s == [] then 0 else SumSeq(s[..|s| - 1]) + s[|s| - 1]
  }

  /** Sum of the first m full-column counts, rows 0 .. n-1. */
  function ColTotal(img: array2<Gray>, n: int, m: int): nat
    reads img
    requires 0 <= n <= img.Length0 && 0 <= m <= img.Length1
    decreases m
  {
    if m == 0 then 0 else ColTotal(img, n, m - 1) + ColCount(img, m - 1, n)
  }

  /** Sum of the first n row counts, columns 0 .. m-1. */
  function RowTotal(img: array2<Gray>, n: int, m: int): nat
    reads img
    requires 0 <= n <= img.Length0 && 0 <= m <= img.Length1
    decreases n
  {
    if n == 0 then 0 else RowTotal(img, n - 1, m) + RowCount(img, n - 1, m)
  }

  /** Adding column m to every row adds that column's count. */
  lemma {:induction false} RowTotalNextColumn(img: array2<Gray>, n: int, m: int)
    requires 0 <= n <= img.Length0 && 0 <= m < img.Length1
    ensures RowTotal(img, n, m + 1) == RowTotal(img, n, m) + ColCount(img, m, n)
    decreases n
  {
    if n > 0 {
      RowTotalNextColumn(img, n - 1, m);
    }
  }

  /** Counting the light pixels of a block by columns or by rows gives the
      same number. */
  lemma {:induction false} TotalsAgree(img: array2<Gray>, n: int, m: int)
    requires 0 <= n <= img.Length0 && 0 <= m <= img.Length1
    ensures ColTotal(img, n, m) == RowTotal(img, n, m)
    decreases m
  {
    if m == 0 {
      RowTotalNoColumns(img, n);
    } else {
      TotalsAgree(img, n, m - 1);
      RowTotalNextColumn(img, n, m - 1);
    }
  }

  lemma {:induction false} RowTotalNoColumns(img: array2<Gray>, n: int)
    requires 0 <= n <= img.Length0
    ensures RowTotal(img, n, 0) == 0
    decreases n
  {
    if n > 0 {
      RowTotalNoColumns(img, n - 1);
    }
  }

  /** The sum of a list of column counts is the column total. */
  lemma {:induction false} SumOfColumnCounts(img: array2<Gray>, w: seq<nat>, m: int)
    requires 0 <= m <= |w| == img.Length1
    requires forall j :: 0 <= j < |w| ==> w[j] == ColCount(img, j, img.Length0)
    ensures SumSeq(w[..m]) == ColTotal(img, img.Length0, m)
    decreases m
  {
    if m > 0 {
      SumOfColumnCounts(img, w, m - 1);
      assert w[..m][..m - 1] == w[..m - 1];
    }
  }

  /** The sum of a list of row counts is the row total. */
  lemma {:induction false} SumOfRowCounts(img: array2<Gray>, h: seq<nat>, n: int)
    requires 0 <= n <= |h| == img.Length0
    requires forall i :: 0 <= i < |h| ==> h[i] == RowCount(img, i, img.Length1)
    ensures SumSeq(h[..n]) == RowTotal(img, n, img.Length1)
    decreases n
  {
    if n > 0 {
      SumOfRowCounts(img, h, n - 1);
      assert h[..n][..n - 1] == h[..n - 1];
    }
  }

  /** The nested loop of main.py:135-141: w[j] is the number of light
      pixels in column j, h[i] the number in row i, and both lists count
      every light pixel once, so their sums agree. */
  method CountLight(img: array2<Gray>) returns (w: seq<nat>, h: seq<nat>)
    ensures |w| == img.Length1 && |h| == img.Length0
    ensures forall j :: 0 <= j < |w| ==> w[j] == ColCount(img, j, img.Length0)
    ensures forall i :: 0 <= i < |h| ==> h[i] == RowCount(img, i, img.Length1)
    ensures SumSeq(w) == SumSeq(h)
  {
    var height, width := img.Length0, img.Length1;
    var wa := new nat[width](_ => 0);
    var ha := new nat[height](_ => 0);
    var i := 0;
    while i < height
      invariant 0 <= i <= height
      invariant forall k :: 0 <= k < width ==> wa[k] == ColCount(img, k, i)
      invariant forall k :: 0 <= k < i ==> ha[k] == RowCount(img, k, width)
      invariant forall k :: i <= k < height ==> ha[k] == 0
    {
      var j := 0;
      while j < width
        invariant 0 <= j <= width
        invariant forall k :: 0 <= k < j ==> wa[k] == ColCount(img, k, i + 1)
        invariant forall k :: j <= k < width ==> wa[k] == ColCount(img, k, i)
        invariant ha[i] == RowCount(img, i, j)
        invariant forall k :: 0 <= k < i ==> ha[k] == RowCount(img, k, width)
        invariant forall k :: i < k < height ==> ha[k] == 0
      {
        if IsLight(img[i, j]) {
          wa[j] := wa[j] + 1;
          ha[i] := ha[i] + 1;
        }
        j := j + 1;
      }
      i := i + 1;
    }
    w, h := wa[..], ha[..];
    SumOfColumnCounts(img, w, width);
    SumOfRowCounts(img, h, height);
    TotalsAgree(img, height, width);
    assert w[..width] == w && h[..height] == h;
  }

  // ---------------------------------------------------------------------
  // Selecting the extent of one axis

  /** The indices k < n with counts[k] > threshold, in ascending order:
      the list comprehension of main.py:142-143. */
  function Qualifying(counts: seq<nat>, threshold: nat, n: nat): (q: seq<nat>)
    requires n <= |counts|
    ensures forall k: nat :: k in q <==> k < n && counts[k] > threshold
    ensures forall a, b :: 0 <= a < b < |q| ==> q[a] < q[b]
  {
    if n == 0 then []
    else
      var earlier := Qualifying(counts, threshold, n - 1);
      assert forall a :: 0 <= a < |earlier| ==> earlier[a] in earlier;
      earlier + (if counts[n - 1] > threshold then [n - 1] else [])
  }

  /** Python's min over a non-empty list. */
  function MinOf(q: seq<nat>): (m: nat)
    requires |q| > 0
    ensures m in q && forall x :: x in q ==> m <= x
  {
    if |q| == 1 then q[0]
    else
      var rest := MinOf(q[1..]);
      assert forall x :: x in q ==> x == q[0] || x in q[1..];
      if q[0] <= rest then q[0] else rest
  }

  /** Python's max over a non-empty list. */
  function MaxOf(q: seq<nat>): (m: nat)
    requires |q| > 0
    ensures m in q && forall x :: x in q ==> x <= m
  {
    if |q| == 1 then q[0]
    else
      var rest := MaxOf(q[1..]);
      assert forall x :: x in q ==> x == q[0] || x in q[1..];
      if q[0] >= rest then q[0] else rest
  }

  /** min and max of the kept indices, or the sentinel (|counts|, 0) when
      none is kept (main.py:144-155). */
  function AxisExtent(counts: seq<nat>, threshold: nat): (e: Extent)
    ensures (forall k :: 0 <= k < |counts| ==> counts[k] <= threshold) <==> e == Extent(|counts|, 0)
    ensures (exists k :: 0 <= k < |counts| && counts[k] > threshold) ==>
              0 <= e.lo <= e.hi < |counts| && counts[e.lo] > threshold && counts[e.hi] > threshold &&
              forall k :: 0 <= k < |counts| && (k < e.lo || e.hi < k) ==> counts[k] <= threshold
  {
    var q := Qualifying(counts, threshold, |counts|);
    if |q| > 0 then Extent(MinOf(q), MaxOf(q)) else Extent(|counts|, 0)
  }

  // ---------------------------------------------------------------------
  // The detector

  ghost function ColumnCounts(img: array2<Gray>): seq<nat>
    reads img
  {
    seq(img.Length1, j requires 0 <= j < img.Length1 reads img => ColCount(img, j, img.Length0))
  }

  ghost function RowCounts(img: array2<Gray>): seq<nat>
    reads img
  {
    seq(img.Length0, i requires 0 <= i < img.Length0 reads img => RowCount(img, i, img.Length1))
  }

  /** The rectangle that found_boundary reports for a grayscale image. */
  ghost function Detect(img: array2<Gray>): (area: Area)
    reads img
    ensures Fits(area, img)
    ensures (area.minW == img.Length1 && area.maxW == 0) || area.minW <= area.maxW < img.Length1
    ensures (area.minH == img.Length0 && area.maxH == 0) || area.minH <= area.maxH < img.Length0
  {
    var cols := AxisExtent(ColumnCounts(img), ColumnThreshold);
    var rows := AxisExtent(RowCounts(img), RowThreshold);
    Area(cols.lo, cols.hi, rows.lo, rows.hi)
  }

  /** Every index the rectangle ranges over lies inside the image. */
  predicate Fits(area: Area, img: array2<Gray>) {
    0 <= area.minW && area.maxW <= img.Length1 && 0 <= area.minH && area.maxH <= img.Length0
  }

  /** found_boundary on an already grayscale image. Each axis is decided
      on its own counts: the sentinel exactly when no index of that axis
      is kept, and otherwise the least and the greatest kept index, with
      nothing kept outside them. */
  method FoundBoundary(img: array2<Gray>) returns (area: Area)
    ensures area == Detect(img)
    ensures Fits(area, img)
    ensures (forall j :: 0 <= j < img.Length1 ==> !ColumnQualifies(img, j)) <==>
              area.minW == img.Length1 && area.maxW == 0
    ensures (exists j :: 0 <= j < img.Length1 && ColumnQualifies(img, j)) ==>
              0 <= area.minW <= area.maxW < img.Length1 &&
              ColumnQualifies(img, area.minW) && ColumnQualifies(img, area.maxW) &&
              forall j :: 0 <= j < img.Length1 && (j < area.minW || area.maxW < j) ==> !ColumnQualifies(img, j)
    ensures (forall i :: 0 <= i < img.Length0 ==> !RowQualifies(img, i)) <==>
              area.minH == img.Length0 && area.maxH == 0
    ensures (exists i :: 0 <= i < img.Length0 && RowQualifies(img, i)) ==>
              0 <= area.minH <= area.maxH < img.Length0 &&
              RowQualifies(img, area.minH) && RowQualifies(img, area.maxH) &&
              forall i :: 0 <= i < img.Length0 && (i < area.minH || area.maxH < i) ==> !RowQualifies(img, i)
  {
    var w, h := CountLight(img);
    assert w == ColumnCounts(img);
    assert h == RowCounts(img);
    assert forall j :: 0 <= j < img.Length1 ==> (ColumnQualifies(img, j) <==> w[j] > ColumnThreshold);
    assert forall i :: 0 <= i < img.Length0 ==> (RowQualifies(img, i) <==> h[i] > RowThreshold);
    var cols := AxisExtent(w, ColumnThreshold);
    var rows := AxisExtent(h, RowThreshold);
    area := Area(cols.lo, cols.hi, rows.lo, rows.hi);
  }

  // ---------------------------------------------------------------------
  // Two images whose rectangle is known

  /** An image without any light pixel yields the sentinel on both axes. */
  lemma NoLightGivesSentinel(img: array2<Gray>)
    requires forall i, j :: 0 <= i < img.Length0 && 0 <= j < img.Length1 ==> !IsLight(img[i, j])
    ensures Detect(img) == Area(img.Length1, 0, img.Length0, 0)
  {
    forall j | 0 <= j < img.Length1
      ensures ColCount(img, j, img.Length0) == 0
    {
      NoLightColumn(img, j, img.Length0);
    }
    forall i | 0 <= i < img.Length0
      ensures RowCount(img, i, img.Length1) == 0
    {
      NoLightRow(img, i, img.Length1);
    }
  }

  lemma {:induction false} NoLightColumn(img: array2<Gray>, j: int, n: int)
    requires 0 <= j < img.Length1 && 0 <= n <= img.Length0
    requires forall i :: 0 <= i < img.Length0 ==> !IsLight(img[i, j])
    ensures ColCount(img, j, n) == 0
    decreases n
  {
    if n > 0 {
      NoLightColumn(img, j, n - 1);
    }
  }

  lemma {:induction false} NoLightRow(img: array2<Gray>, i: int, m: int)
    requires 0 <= i < img.Length0 && 0 <= m <= img.Length1
    requires forall j :: 0 <= j < img.Length1 ==> !IsLight(img[i, j])
    ensures RowCount(img, i, m) == 0
    decreases m
  {
    if m > 0 {
      NoLightRow(img, i, m - 1);
    }
  }

  /** Number of indices in [0, n) that also lie in [lo, hi]. */
  function Overlap(n: int, lo: int, hi: int): int {
    if n <= lo then 0 else if n <= hi + 1 then n - lo else hi + 1 - lo
  }

  /** The light pixels form exactly the block of rows r0..r1 and columns
      c0..c1. */
  ghost predicate IsBlock(img: array2<Gray>, r0: int, r1: int, c0: int, c1: int)
    reads img
  {
    0 <= r0 <= r1 < img.Length0 && 0 <= c0 <= c1 < img.Length1 &&
    forall i, j :: 0 <= i < img.Length0 && 0 <= j < img.Length1 ==>
      (IsLight(img[i, j]) <==> r0 <= i <= r1 && c0 <= j <= c1)
  }

  lemma {:induction false} BlockColCount(img: array2<Gray>, r0: int, r1: int, c0: int, c1: int, j: int, n: int)
    requires IsBlock(img, r0, r1, c0, c1)
    requires 0 <= j < img.Length1 && 0 <= n <= img.Length0
    ensures ColCount(img, j, n) == if c0 <= j <= c1 then Overlap(n, r0, r1) else 0
    decreases n
  {
    if n > 0 {
      BlockColCount(img, r0, r1, c0, c1, j, n - 1);
    }
  }

  lemma {:induction false} BlockRowCount(img: array2<Gray>, r0: int, r1: int, c0: int, c1: int, i: int, m: int)
    requires IsBlock(img, r0, r1, c0, c1)
    requires 0 <= i < img.Length0 && 0 <= m <= img.Length1
    ensures RowCount(img, i, m) == if r0 <= i <= r1 then Overlap(m, c0, c1) else 0
    decreases m
  {
    if m > 0 {
      BlockRowCount(img, r0, r1, c0, c1, i, m - 1);
    }
  }

  /** A single block of light pixels taller than 105 rows and wider than
      100 columns is reported with exactly its own coordinates. */
  lemma SingleBlockDetected(img: array2<Gray>, r0: int, r1: int, c0: int, c1: int)
    requires IsBlock(img, r0, r1, c0, c1)
    requires r1 - r0 + 1 > ColumnThreshold && c1 - c0 + 1 > RowThreshold
    ensures Detect(img) == Area(c0, c1, r0, r1)
  {
    var cols, rows := ColumnCounts(img), RowCounts(img);
    forall j | 0 <= j < img.Length1
      ensures cols[j] == if c0 <= j <= c1 then r1 - r0 + 1 else 0
    {
      BlockColCount(img, r0, r1, c0, c1, j, img.Length0);
    }
    forall i | 0 <= i < img.Length0
      ensures rows[i] == if r0 <= i <= r1 then c1 - c0 + 1 else 0
    {
      BlockRowCount(img, r0, r1, c0, c1, i, img.Length1);
    }
    var ce := AxisExtent(cols, ColumnThreshold);
    var re := AxisExtent(rows, RowThreshold);
    assert cols[c0] > ColumnThreshold && cols[c1] > ColumnThreshold;
    assert c0 <= ce.lo && ce.hi <= c1;
    assert ce == Extent(c0, c1);
    assert rows[r0] > RowThreshold && rows[r1] > RowThreshold;
    assert r0 <= re.lo && re.hi <= r1;
    assert re == Extent(r0, r1);
  }
}
