/** The sheet-bottom locator (main.py:20-28): scanning up from just above
    the middle row, the first row whose average intensity exceeds 210
    marks the bottom of the sheet. The grayscale rows are taken as given;
    the colour conversion is not modelled. */
module SheetBottom {
  import opened Pixels

  const BrightAverage: int := 210

  /** Sum of the first m intensities of row r. */
  function RowSum(img: array2<Gray>, r: int, m: int): (s: int)
    reads img
    requires 0 <= r < img.Length0 && 0 <= m <= img.Length1
    ensures 0 <= s <= 255 * m
    decreases m
  {
    if m == 0 then 0 else RowSum(img, r, m - 1) + img[r, m - 1]
  }

  /** row_sum / width > 210, written as an integer comparison. */
  predicate IsBright(img: array2<Gray>, r: int)
    reads img
    requires 0 <= r < img.Length0
    ensures IsBright(img, r) ==> img.Length1 > 0
  {
    RowSum(img, r, img.Length1) > BrightAverage * img.Length1
  }

  /** For a positive width the integer comparison is the program's test
      on the exact quotient. */
  lemma BrightIsAverageAbove(rowSum: int, width: int)
    requires width > 0
    ensures rowSum > BrightAverage * width <==> (rowSum as real) / (width as real) > BrightAverage as real
  {
    var q := (rowSum as real) / (width as real);
    assert q * (width as real) == rowSum as real;
  }

  /** find_sheet_bottom: the largest row r with 1 <= r < height/2 that is
      bright, every row between it and height/2 being dark; height/2 when
      no row of that range is bright. Row 0 is never examined. The width
      must be positive once the scan examines a row (height >= 4), since the
      program divides by it. */
  method FindSheetBottom(img: array2<Gray>) returns (btm: int)
    requires img.Length1 > 0 || img.Length0 < 4
    ensures var mid := img.Length0 / 2;
      (btm == mid && forall r :: 1 <= r < mid ==> !IsBright(img, r)) ||
      (1 <= btm < mid && IsBright(img, btm) && forall r :: btm < r < mid ==> !IsBright(img, r))
  {
    btm := img.Length0 / 2;
    var h := btm - 1;
    while h > 0
      invariant btm == img.Length0 / 2
      invariant -1 <= h < btm
      invariant forall r :: h < r < btm ==> !IsBright(img, r)
    {
      if IsBright(img, h) {
        btm := h;
        break;
      }
      h := h - 1;
    }
  }
}
