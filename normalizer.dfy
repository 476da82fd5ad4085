/** The region normaliser (main.py:159-166): rewrites, in place, the
    grayscale pixels of the half-open rectangle [minH, maxH) x [minW, maxW)
    that the boundary detector reported. */
module Normalizer {
  import opened Pixels
  import opened Boundary

  /** Whether pixel (i, j) is visited by the two nested ranges. Row maxH
      and column maxW are outside. */
  predicate InArea(area: Area, i: int, j: int) {
    area.minH <= i < area.maxH && area.minW <= j < area.maxW
  }

  /** filter_roi_image without the colour conversion and the drawn
      rectangle: every visited pixel is normalised, every other pixel
      keeps its value. */
  method FilterRoi(img: array2<Gray>, area: Area)
    requires Fits(area, img)
    modifies img
    ensures forall i, j :: 0 <= i < img.Length0 && 0 <= j < img.Length1 ==>
              img[i, j] == if InArea(area, i, j) then Normalize(old(img[i, j])) else old(img[i, j])
    ensures area.minW >= area.maxW || area.minH >= area.maxH ==>
              forall i, j :: 0 <= i < img.Length0 && 0 <= j < img.Length1 ==> img[i, j] == old(img[i, j])
  {
    var dh := area.minH;
    while dh < area.maxH
      invariant area.minH <= dh && (dh <= area.maxH || dh == area.minH)
      invariant forall i, j :: 0 <= i < img.Length0 && 0 <= j < img.Length1 ==>
                  img[i, j] == if i < dh && InArea(area, i, j) then Normalize(old(img[i, j])) else old(img[i, j])
    {
      var dw := area.minW;
      while dw < area.maxW
        invariant area.minW <= dw && (dw <= area.maxW || dw == area.minW)
        invariant forall i, j :: 0 <= i < img.Length0 && 0 <= j < img.Length1 ==>
                    img[i, j] == if (i < dh || (i == dh && j < dw)) && InArea(area, i, j)
                                 then Normalize(old(img[i, j])) else old(img[i, j])
      {
        if IsLight(img[dh, dw]) {
          img[dh, dw] := White;
        } else if IsDeep(img[dh, dw]) {
          img[dh, dw] := Black;
        }
        dw := dw + 1;
      }
      dh := dh + 1;
    }
  }
}
