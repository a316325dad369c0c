/**
 * Names of the extracted frame files: the output file number written in
 * decimal, left-padded with '0' to at least eight characters (the Python
 * format "{:08d}"), followed by the frame file extension.
 */
module FrameNaming {

  /** Width of the zero-padded file number. */
  const StemWidth: nat := 8

  predicate IsDigit(c: char) {
    '0' <= c <= '9'
  }

  predicate AllDigits(s: string) {
    forall i :: 0 <= i < |s| ==> IsDigit(s[i])
  }

  function DigitChar(d: nat): (c: char)
    requires d < 10
    ensures IsDigit(c)
  {
    ('0' as int + d) as char
  }

  function DigitValue(c: char): (d: nat)
    requires IsDigit(c)
    ensures d < 10 && DigitChar(d) == c
  {
    c as int - '0' as int
  }

  /** n in decimal, without leading zeros (a single "0" for zero). */
  function Decimal(n: nat): (s: string)
    ensures 1 <= |s| && AllDigits(s)
    ensures s[0] == '0' ==> n == 0
  {
    if n < 10 then [DigitChar(n)]
    else Decimal(n / 10) + [DigitChar(n % 10)]
  }

  function Zeros(k: nat): (z: string)
    ensures |z| == k && forall i :: 0 <= i < k ==> z[i] == '0'
  {
    if k == 0 then [] else Zeros(k - 1) + ['0']
  }

  /** Left-pads s with '0' up to the given width; never truncates. */
  function ZeroPad(s: string, width: nat): (r: string)
    ensures |r| == if |s| < width then width else |s|
    ensures r[|r| - |s|..] == s
    ensures forall i :: 0 <= i < |r| - |s| ==> r[i] == '0'
  {
    var k := if |s| < width then width - |s| else 0;
    Zeros(k) + s
  }

  /** The stem "{:08d}" of file number n. */
  function FrameStem(n: nat): (stem: string)
    ensures AllDigits(stem)
  {
    ZeroPad(Decimal(n), StemWidth)
  }

  /**
   * The file name of output file number n with extension ext: at least
   * eight characters of stem, then the extension.
   */
  function FrameFileName(n: nat, ext: string): (name: string)
    ensures |name| >= StemWidth + |ext| && name[|name| - |ext|..] == ext
  {
    StemShape(n);
    FrameStem(n) + ext
  }

  /** The characters before the extension are digits that read back as n. */
  lemma FileNameReadsBack(n: nat, ext: string)
    ensures AllDigits(FrameFileName(n, ext)[..|FrameFileName(n, ext)| - |ext|])
    ensures ParseDecimal(FrameFileName(n, ext)[..|FrameFileName(n, ext)| - |ext|]) == n
  {
    var stem := FrameStem(n);
    assert FrameFileName(n, ext)[..|FrameFileName(n, ext)| - |ext|] == stem;
    StemRoundTrip(n);
  }

  /** Reads a string of decimal digits back as a number. */
  function ParseDecimal(s: string): nat
    requires AllDigits(s)
  {
    if s == [] then 0
    else ParseDecimal(s[..|s| - 1]) * 10 + DigitValue(s[|s| - 1])
  }

  lemma {:induction false} ParseDecimalRoundTrip(n: nat)
    ensures ParseDecimal(Decimal(n)) == n
  {
    if n >= 10 {
      var s := Decimal(n);
      assert s[..|s| - 1] == Decimal(n / 10);
      assert DigitValue(s[|s| - 1]) == n % 10;
      ParseDecimalRoundTrip(n / 10);
      assert n == (n / 10) * 10 + n % 10;
    }
  }

  lemma {:induction false} ParseZeros(k: nat)
    ensures ParseDecimal(Zeros(k)) == 0
  {
    if k > 0 {
      assert Zeros(k)[..k - 1] == Zeros(k - 1);
      ParseZeros(k - 1);
    }
  }

  /** Leading zeros do not change the value read back. */
  lemma {:induction false} ParseIgnoresLeadingZeros(k: nat, s: string)
    requires AllDigits(s)
    ensures ParseDecimal(Zeros(k) + s) == ParseDecimal(s)
  {
    if s == [] {
      assert Zeros(k) + s == Zeros(k);
      ParseZeros(k);
    } else {
      var t := Zeros(k) + s;
      assert t[..|t| - 1] == Zeros(k) + s[..|s| - 1];
      ParseIgnoresLeadingZeros(k, s[..|s| - 1]);
    }
  }

  /** The stem reads back as the file number it was made from. */
  lemma StemRoundTrip(n: nat)
    ensures ParseDecimal(FrameStem(n)) == n
  {
    var d := Decimal(n);
    ParseIgnoresLeadingZeros(if |d| < StemWidth then StemWidth - |d| else 0, d);
    ParseDecimalRoundTrip(n);
  }

  function Pow10(k: nat): (p: nat)
    ensures p >= 1
  {
    if k == 0 then 1 else 10 * Pow10(k - 1)
  }

  lemma {:induction false} DecimalLength(n: nat, k: nat)
    requires k >= 1 && n < Pow10(k)
    ensures |Decimal(n)| <= k
  {
    if n >= 10 {
      DecimalLength(n / 10, k - 1);
    }
  }

  /**
   * The stem is at least eight characters, exactly eight below 10^8, and
   * always ends with the full decimal form of n (it is never truncated).
   */
  lemma StemShape(n: nat)
    ensures |FrameStem(n)| >= StemWidth
    ensures n < Pow10(StemWidth) ==> |FrameStem(n)| == StemWidth
    ensures FrameStem(n)[|FrameStem(n)| - |Decimal(n)|..] == Decimal(n)
    ensures forall i :: 0 <= i < |FrameStem(n)| - |Decimal(n)| ==> FrameStem(n)[i] == '0'
  {
    if n < Pow10(StemWidth) {
      DecimalLength(n, StemWidth);
    }
  }

  /** Distinct file numbers give distinct file names. */
  lemma FileNamesDistinct(m: nat, n: nat, ext: string)
    requires m != n
    ensures FrameFileName(m, ext) != FrameFileName(n, ext)
  {
    FileNameReadsBack(m, ext);
    FileNameReadsBack(n, ext);
  }

  /** File number 12 with the default extension. */
  lemma TwelfthFileName()
    ensures FrameFileName(12, ".jpg") == "00000012.jpg"
  {
    assert Decimal(12) == "12";
    assert FrameStem(12) == "00000012";
  }
}
