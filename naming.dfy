/** The name under which a captured frame is saved (main.py:14):
    "score_" followed by the frame index in decimal, padded with leading
    zeros to at least six digits, followed by ".png". */
module Naming {

  datatype Option<T> = None | Some(value: T)

  const Prefix: string := "score_"
  const Suffix: string := ".png"
  const Width: nat := 6

  predicate IsDigit(c: char) {
    '0' <= c <= '9'
  }

  predicate AllDigits(s: string) {
    forall k :: 0 <= k < |s| ==> IsDigit(s[k])
  }

  function DigitChar(d: nat): (c: char)
    requires d < 10
    ensures IsDigit(c)
  {
    ('0' as int + d) as char
  }

  /** The decimal digits of n, most significant first, without leading
      zeros ("0" for zero). */
  function Decimal(n: nat): (s: string)
    ensures 1 <= |s| && AllDigits(s)
    ensures n < 10 ==> |s| == 1
  {
    if n < 10 then [DigitChar(n)] else Decimal(n / 10) + [DigitChar(n % 10)]
  }

  function Zeros(k: nat): (s: string)
    ensures |s| == k && AllDigits(s)
  {
    if k == 0 then [] else Zeros(k - 1) + ['0']
  }

  /** The `06d` format: leading zeros up to six characters. */
  function Padded(n: nat): (s: string)
    ensures AllDigits(s) && |s| >= Width
  {
    var d := Decimal(n);
    if |d| >= Width then d else Zeros(Width - |d|) + d
  }

  function ImageName(frameIndex: nat): (name: string)
    ensures |name| >= |Prefix| + Width + |Suffix|
    ensures name[..|Prefix|] == Prefix && name[|name| - |Suffix|..] == Suffix
    ensures AllDigits(name[|Prefix|..|name| - |Suffix|])
  {
    Prefix + Padded(frameIndex) + Suffix
  }

  /** The value of a string of decimal digits. */
  function DigitsValue(s: string): nat
    requires AllDigits(s)
  {
    if s == [] then 0 else DigitsValue(s[..|s| - 1]) * 10 + (s[|s| - 1] as int - '0' as int)
  }

  /** Reads the frame index back out of a saved name, if it has the shape
      ImageName produces. */
  function FrameOfName(name: string): Option<nat> {
    if |name| >= |Prefix| + Width + |Suffix| && name[..|Prefix|] == Prefix && name[|name| - |Suffix|..] == Suffix
       && AllDigits(name[|Prefix|..|name| - |Suffix|])
    then Some(DigitsValue(name[|Prefix|..|name| - |Suffix|]))
    else None
  }

  lemma {:induction false} DecimalValue(n: nat)
    ensures DigitsValue(Decimal(n)) == n
  {
    if n >= 10 {
      DecimalValue(n / 10);
      var s := Decimal(n);
      assert s[..|s| - 1] == Decimal(n / 10);
    }
  }

  lemma {:induction false} LeadingZerosValue(k: nat, s: string)
    requires AllDigits(s)
    ensures AllDigits(Zeros(k) + s) && DigitsValue(Zeros(k) + s) == DigitsValue(s)
    decreases |s|, k
  {
    if s == [] {
      assert Zeros(k) + s == Zeros(k);
      if k > 0 {
        LeadingZerosValue(k - 1, s);
        assert Zeros(k)[..k - 1] == Zeros(k - 1) + s;
      }
    } else {
      var init := s[..|s| - 1];
      LeadingZerosValue(k, init);
      assert (Zeros(k) + s)[..|Zeros(k) + s| - 1] == Zeros(k) + init;
    }
  }

  /** Decimal(n) has at most six digits exactly when n < 1000000. */
  lemma {:induction false} DecimalLength(n: nat)
    ensures n < 1000000 <==> |Decimal(n)| <= Width
  {
    assert Pow10(6) == 1000000;
    DecimalLengthBound(n, Width, 1000000);
  }

  lemma {:induction false} DecimalLengthBound(n: nat, k: nat, p: nat)
    requires k >= 1 && p == Pow10(k)
    ensures n < p <==> |Decimal(n)| <= k
    decreases k
  {
    if k > 1 {
      if n >= 10 {
        DecimalLengthBound(n / 10, k - 1, p / 10);
      }
    }
  }

  function Pow10(k: nat): (p: nat)
    ensures p >= 1
  {
    if k == 0 then 1 else 10 * Pow10(k - 1)
  }

  /** The name of frame n reads back as n. */
  lemma NameRoundTrip(n: nat)
    ensures FrameOfName(ImageName(n)) == Some(n)
  {
    var name := ImageName(n);
    var p := Padded(n);
    assert name[..|Prefix|] == Prefix;
    assert name[|name| - |Suffix|..] == Suffix;
    assert name[|Prefix|..|name| - |Suffix|] == p;
    DecimalValue(n);
    var d := Decimal(n);
    if |d| < Width {
      LeadingZerosValue(Width - |d|, d);
    }
  }

  /** Distinct frames are saved under distinct names. */
  lemma ImageNameInjective(a: nat, b: nat)
    requires ImageName(a) == ImageName(b)
    ensures a == b
  {
    NameRoundTrip(a);
    NameRoundTrip(b);
  }

  /** Frames below 1000000 get names of exactly 16 characters. */
  lemma ImageNameLength(n: nat)
    requires n < 1000000
    ensures |ImageName(n)| == |Prefix| + Width + |Suffix|
  {
    DecimalLength(n);
  }
}
