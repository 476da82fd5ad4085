/** Grayscale pixels and the two intensity bands that classify them
    (main.py:129-134). The masks that the program builds with a library
    range test are represented here by the predicates IsDeep and IsLight:
    a mask entry is set exactly when its predicate holds of the pixel. */
module Pixels {

  /** An 8-bit grayscale intensity. */
  type Gray = g: int | 0 <= g <= 255

  const DeepLow: int := 40
  const DeepHigh: int := 100
  const LightLow: int := 160
  const LightHigh: int := 216

  const White: Gray := 255
  const Black: Gray := 0

  /** Membership in the deep-gray mask: the closed interval [40, 100]. */
  predicate IsDeep(g: int) {
    DeepLow <= g <= DeepHigh
  }

  /** Membership in the light-gray mask: the closed interval [160, 216]. */
  predicate IsLight(g: int) {
    LightLow <= g <= LightHigh
  }

  /** The two bands never overlap, so no pixel is in both masks. */
  lemma MasksDisjoint(g: int)
    ensures !(IsDeep(g) && IsLight(g))
  {
  }

  /** The value the region normaliser writes for a pixel inside the
      rectangle: light becomes white, otherwise deep becomes black,
      otherwise the pixel keeps its value (main.py:163-166). Only a pixel
      in one of the bands changes, and it changes to white or black; the
      result is in neither band. */
  function Normalize(g: Gray): (r: Gray)
    ensures r != g ==> (IsLight(g) || IsDeep(g)) && (r == White || r == Black)
    ensures !IsLight(r) && !IsDeep(r)
  {
    if IsLight(g) then White else if IsDeep(g) then Black else g
  }
}
