/**
 * The hero frame sequence: its length, the URL of every still, and the
 * loading status of a frame handle.
 *
 * A frame URL is `/frames/frame_` followed by the one-based frame ordinal,
 * written in decimal and left-padded with '0' to four characters, followed
 * by `.webp`. `ParseFrameUrl` is the inverse of `FrameUrl`; the two are
 * proved to round-trip in both directions, from which it follows that the
 * 192 URLs are pairwise distinct.
 */
module Frames {
  import opened Optional

  /** Number of stills in the hero sequence. */
  const FRAME_COUNT: nat := 192

  const URL_PREFIX: string := "/frames/frame_"
  const URL_SUFFIX: string := ".webp"
  /** Width the ordinal is zero-padded to. */
  const ORDINAL_WIDTH: nat := 4

  /** State of one image handle as the platform reports it. */
  datatype FrameStatus = Pending | Loaded | Failed

  predicate IsDigit(c: char) {
    '0' <= c <= '9'
  }

  predicate AllDigits(s: string) {
    forall i :: 0 <= i < |s| ==> IsDigit(s[i])
  }

  function DigitValue(c: char): int {
    c as int - '0' as int
  }

  function DigitChar(d: nat): (c: char)
    requires d < 10
    ensures IsDigit(c) && DigitValue(c) == d
  {
    (48 + d) as char
  }

  function Pow10(k: nat): (p: nat)
    ensures p >= 1
  {
    if k == 0 then 1 else 10 * Pow10(k - 1)
  }

  /** Decimal rendering without leading zeros, as JavaScript's `String(n)` for a natural number. */
  function Decimal(n: nat): (s: string)
    ensures 1 <= |s|
    ensures AllDigits(s)
  {
    if n < 10 then [DigitChar(n)] else Decimal(n / 10) + [DigitChar(n % 10)]
  }

  /** JavaScript's `s.padStart(width, fill)`: a string already `width` long or longer is returned as is. */
  function PadStart(s: string, width: nat, fill: char): (r: string)
    ensures |s| < width ==> |r| == width
    ensures |s| >= width ==> r == s
    ensures r[|r| - |s|..] == s
    ensures forall i :: 0 <= i < |r| - |s| ==> r[i] == fill
  {
    if |s| >= width then s else seq(width - |s|, _ => fill) + s
  }

  /** Numeric value of a string of decimal digits, most significant first. */
  function DigitsValue(s: string): nat
    requires AllDigits(s)
  {
    if s == [] then 0 else DigitsValue(s[..|s| - 1]) * 10 + DigitValue(s[|s| - 1])
  }

  /** The four-character ordinal of frame `i`: `String(i + 1).padStart(4, '0')`. */
  function Ordinal(i: nat): (d: string)
    ensures AllDigits(d)
    ensures DigitsValue(d) == i + 1
    ensures i + 1 < Pow10(ORDINAL_WIDTH) ==> |d| == ORDINAL_WIDTH
  {
    PaddedDecimal(i + 1, ORDINAL_WIDTH);
    PadStart(Decimal(i + 1), ORDINAL_WIDTH, '0')
  }

  /** URL of frame `i` (zero-based). */
  function FrameUrl(i: nat): string {
    URL_PREFIX + Ordinal(i) + URL_SUFFIX
  }

  /** The URL table, one entry per frame, in frame order. */
  function FrameUrls(): (urls: seq<string>)
    ensures |urls| == FRAME_COUNT
    ensures forall i :: 0 <= i < FRAME_COUNT ==> ParseFrameUrl(urls[i]) == Some(i)
    ensures forall i, j :: 0 <= i < j < FRAME_COUNT ==> urls[i] != urls[j]
  {
    var urls := seq(FRAME_COUNT, i requires 0 <= i => FrameUrl(i));
    forall i | 0 <= i < FRAME_COUNT
      ensures ParseFrameUrl(urls[i]) == Some(i)
    {
      ParseFrameUrlRoundTrip(i);
    }
    urls
  }

  /** Recovers the frame index from a frame URL; `None` for anything `FrameUrl` cannot produce. */
  function ParseFrameUrl(url: string): Option<nat> {
    var lo := |URL_PREFIX|;
    var hi := lo + ORDINAL_WIDTH;
    if |url| == hi + |URL_SUFFIX| && url[..lo] == URL_PREFIX && url[hi..] == URL_SUFFIX && AllDigits(url[lo..hi]) then
      var v := DigitsValue(url[lo..hi]);
      if 1 <= v <= FRAME_COUNT then Some(v - 1) else None
    else
      None
  }

  lemma {:induction false} DecimalValue(n: nat)
    ensures DigitsValue(Decimal(n)) == n
    decreases n
  {
    var s := Decimal(n);
    if n >= 10 {
      DecimalValue(n / 10);
      assert s[..|s| - 1] == Decimal(n / 10);
    }
  }

  lemma {:induction false} DecimalLength(n: nat, k: nat)
    requires 1 <= k
    requires n < Pow10(k)
    ensures |Decimal(n)| <= k
    decreases n
  {
    if n >= 10 {
      assert k >= 2;
      assert n / 10 < Pow10(k - 1);
      DecimalLength(n / 10, k - 1);
    }
  }

  /** Zero-padding a decimal rendering keeps it all digits, keeps its value and, when the number fits, gives exactly `width` characters. */
  lemma PaddedDecimal(n: nat, width: nat)
    ensures AllDigits(PadStart(Decimal(n), width, '0'))
    ensures DigitsValue(PadStart(Decimal(n), width, '0')) == n
    ensures 1 <= width && n < Pow10(width) ==> |PadStart(Decimal(n), width, '0')| == width
  {
    var dec := Decimal(n);
    var d := PadStart(dec, width, '0');
    DecimalValue(n);
    if 1 <= width && n < Pow10(width) {
      DecimalLength(n, width);
    }
    ZeroPaddingValue(d[..|d| - |dec|], dec);
    assert d == d[..|d| - |dec|] + dec;
  }

  /** Leading zeros do not change the value of a digit string. */
  lemma {:induction false} ZeroPaddingValue(zeros: string, s: string)
    requires forall i :: 0 <= i < |zeros| ==> zeros[i] == '0'
    requires AllDigits(s)
    ensures AllDigits(zeros + s)
    ensures DigitsValue(zeros + s) == DigitsValue(s)
    decreases |zeros| + |s|
  {
    var t := zeros + s;
    if s == [] {
      assert t == zeros;
      if zeros != [] {
        ZeroPaddingValue(zeros[..|zeros| - 1], []);
        assert zeros[..|zeros| - 1] + [] == t[..|t| - 1];
      }
    } else {
      var s' := s[..|s| - 1];
      ZeroPaddingValue(zeros, s');
      assert t[..|t| - 1] == zeros + s';
    }
  }

  /** Two digit strings of the same length and value are the same string. */
  lemma {:induction false} DigitsInjective(a: string, b: string)
    requires |a| == |b|
    requires AllDigits(a) && AllDigits(b)
    requires DigitsValue(a) == DigitsValue(b)
    ensures a == b
    decreases |a|
  {
    if a != [] {
      var n := |a|;
      DigitsInjective(a[..n - 1], b[..n - 1]);
      assert a == a[..n - 1] + [a[n - 1]];
      assert b == b[..n - 1] + [b[n - 1]];
    }
  }

  /** Every frame URL is the prefix, a four-digit ordinal spelling `i + 1`, and the suffix. */
  lemma FrameUrlShape(i: nat)
    requires i < FRAME_COUNT
    ensures exists d: string ::
      && FrameUrl(i) == URL_PREFIX + d + URL_SUFFIX
      && |d| == ORDINAL_WIDTH && AllDigits(d) && DigitsValue(d) == i + 1
  {
  }

  lemma ParseFrameUrlRoundTrip(i: nat)
    requires i < FRAME_COUNT
    ensures ParseFrameUrl(FrameUrl(i)) == Some(i)
  {
  }

  /** A URL that parses to frame `i` is exactly the URL of frame `i`. */
  lemma ParseFrameUrlCanonical(url: string, i: nat)
    requires ParseFrameUrl(url) == Some(i)
    ensures i < FRAME_COUNT
    ensures url == FrameUrl(i)
  {
    var lo := |URL_PREFIX|;
    var hi := lo + ORDINAL_WIDTH;
    var d := url[lo..hi];
    DigitsInjective(Ordinal(i), d);
    assert url == url[..lo] + d + url[hi..];
  }

  lemma FrameUrlInjective(i: nat, j: nat)
    requires i < FRAME_COUNT && j < FRAME_COUNT
    requires FrameUrl(i) == FrameUrl(j)
    ensures i == j
  {
    ParseFrameUrlRoundTrip(i);
    ParseFrameUrlRoundTrip(j);
  }
}
