/** Small vocabulary shared by every module: an Option type, the string
    predicates Python code reaches for (`startswith`, `in`), ASCII case
    mapping and the decimal formatting done by f-strings such as `{n:03d}`. */
module Base {

  datatype Option<+T> = None | Some(value: T)

  // ---------------------------------------------------------------------------
  // Substrings
  // ---------------------------------------------------------------------------

  /** Python's `s.startswith(p)`. */
  predicate StartsWith(s: string, p: string) {
    |p| <= |s| && s[..|p|] == p
  }

  /** `p` occurs in `s` starting at index `i`. */
  predicate OccursAt(s: string, p: string, i: nat) {
    i + |p| <= |s| && s[i..i + |p|] == p
  }

  /** Python's `p in s` for strings. */
  predicate Contains(s: string, p: string) {
    exists i :: 0 <= i <= |s| && OccursAt(s, p, i)
  }

  // ---------------------------------------------------------------------------
  // ASCII case mapping (`str.upper()` / `str.lower()` restricted to ASCII)
  // ---------------------------------------------------------------------------

  function UpperChar(c: char): char {
    if 'a' <= c <= 'z' then (c as int - 32) as char else c
  }

  function LowerChar(c: char): char {
    if 'A' <= c <= 'Z' then (c as int + 32) as char else c
  }

  function Upper(s: string): (r: string)
    ensures |r| == |s|
  {
    seq(|s|, i requires 0 <= i < |s| => UpperChar(s[i]))
  }

  function Lower(s: string): (r: string)
    ensures |r| == |s|
  {
    seq(|s|, i requires 0 <= i < |s| => LowerChar(s[i]))
  }

  /** Upper-casing is idempotent: every code in the resume ledger is its own upper case. */
  lemma UpperIdempotent(s: string)
    ensures Upper(Upper(s)) == Upper(s)
  {
    assert forall i :: 0 <= i < |s| ==> UpperChar(UpperChar(s[i])) == UpperChar(s[i]);
  }

  // ---------------------------------------------------------------------------
  // Decimal digits
  // ---------------------------------------------------------------------------

  predicate IsDigit(c: char) {
    '0' <= c <= '9'
  }

  predicate AllDigits(s: string) {
    forall i :: 0 <= i < |s| ==> IsDigit(s[i])
  }

  function DigitChar(d: nat): (c: char)
    requires d < 10
    ensures IsDigit(c)
  {
    (48 + d) as char
  }

  function DigitValue(c: char): (d: nat)
    requires IsDigit(c)
    ensures d < 10
  {
    c as int - 48
  }

  /** Python's `int(s)` for a non-empty run of ASCII digits (leading zeros allowed). */
  function DecimalValue(s: string): nat
    requires AllDigits(s)
  {
    if s == [] then 0 else DecimalValue(s[..|s| - 1]) * 10 + DigitValue(s[|s| - 1])
  }

  /** Python's `str(n)` for a natural number: shortest decimal spelling. */
  function DecimalDigits(n: nat): (r: string)
    ensures r != [] && AllDigits(r)
    ensures |r| > 1 ==> r[0] != '0'
  {
    if n < 10 then [DigitChar(n)] else DecimalDigits(n / 10) + [DigitChar(n % 10)]
  }

  /** `int(str(n)) == n`: the decimal spelling reads back as the number. */
  lemma {:induction false} DecimalRoundTrip(n: nat)
    ensures DecimalValue(DecimalDigits(n)) == n
  {
    var r := DecimalDigits(n);
    if n >= 10 {
      DecimalRoundTrip(n / 10);
      assert r[..|r| - 1] == DecimalDigits(n / 10);
    }
  }

  function Zeros(k: nat): (r: string)
    ensures |r| == k && AllDigits(r)
    ensures forall i :: 0 <= i < k ==> r[i] == '0'
  {
    seq(k, _ => '0')
  }

  /** Leading zeros do not change the value that `int()` reads. */
  lemma {:induction false} LeadingZeros(k: nat, s: string)
    requires AllDigits(s)
    ensures AllDigits(Zeros(k) + s) && DecimalValue(Zeros(k) + s) == DecimalValue(s)
  {
    var t := Zeros(k) + s;
    if s == [] {
      assert t == Zeros(k);
      if k > 0 {
        assert t[..|t| - 1] == Zeros(k - 1);
        LeadingZeros(k - 1, []);
        assert Zeros(k - 1) + [] == Zeros(k - 1);
      }
    } else {
      assert t[..|t| - 1] == Zeros(k) + s[..|s| - 1];
      LeadingZeros(k, s[..|s| - 1]);
    }
  }

  /** Python's format spec `0{width}d` for an integer: a `-` sign for negative
      numbers, then the digits of the magnitude zero-padded so that the whole
      text (sign included) is at least `width` characters long. */
  function FormatInt(n: int, width: nat): string {
    var sign := if n < 0 then "-" else "";
    var w := if width > |sign| then width - |sign| else 0;
    sign + Padded(if n < 0 then -n else n, w)
  }

  /** The digits of `mag` padded with zeros to at least `w` characters. */
  function Padded(mag: nat, w: nat): string {
    var digits := DecimalDigits(mag);
    if |digits| >= w then digits else Zeros(w - |digits|) + digits
  }

  lemma PaddedRoundTrip(mag: nat, w: nat)
    ensures var b := Padded(mag, w);
      |b| == (if w > |DecimalDigits(mag)| then w else |DecimalDigits(mag)|) &&
      b != [] && b[0] != '-' && AllDigits(b) && DecimalValue(b) == mag
  {
    var digits := DecimalDigits(mag);
    DecimalRoundTrip(mag);
    if |digits| < w {
      LeadingZeros(w - |digits|, digits);
    }
  }

  /** The formatted text is exactly as wide as Python makes it and reads back
      as the number: digits only for `n >= 0`, a `-` then the magnitude otherwise. */
  lemma FormatIntRoundTrip(n: int, width: nat)
    ensures var r := FormatInt(n, width);
      var mag := if n < 0 then -n else n;
      var sign := if n < 0 then 1 else 0;
      |r| == (if width > sign + |DecimalDigits(mag)| then width else sign + |DecimalDigits(mag)|) &&
      r != [] && (r[0] == '-' <==> n < 0) &&
      AllDigits(r[sign..]) && DecimalValue(r[sign..]) == mag
  {
    var mag := if n < 0 then -n else n;
    var sign := if n < 0 then "-" else "";
    var w := if width > |sign| then width - |sign| else 0;
    PaddedRoundTrip(mag, w);
    var r := FormatInt(n, width);
    assert r == sign + Padded(mag, w);
    assert r[|sign|..] == Padded(mag, w);
  }

  function Pow10(k: nat): (p: nat)
    ensures p >= 1
  {
    if k == 0 then 1 else 10 * Pow10(k - 1)
  }

  /** A number below `10^width` formats to exactly `width` digits that read back as it. */
  lemma FormatFixedWidth(n: nat, width: nat)
    requires width >= 1 && n < Pow10(width)
    ensures |FormatInt(n, width)| == width
    ensures AllDigits(FormatInt(n, width)) && DecimalValue(FormatInt(n, width)) == n
  {
    FormatIntRoundTrip(n, width);
    DigitsFit(n, width);
    assert FormatInt(n, width)[0..] == FormatInt(n, width);
  }

  /** A number below `10^width` has at most `width` digits. */
  lemma {:induction false} DigitsFit(n: nat, width: nat)
    requires width >= 1 && n < Pow10(width)
    ensures |DecimalDigits(n)| <= width
  {
    if n >= 10 {
      assert width >= 2;
      assert n / 10 < Pow10(width - 1);
      DigitsFit(n / 10, width - 1);
    }
  }

  /** Python's `str(n)` for any integer. */
  function IntToString(n: int): string {
    FormatInt(n, 0)
  }
}
