/** ASCII character classes and decimal text, as used by the loader's pattern and formatting. */
module Text {

  /** `\d` restricted to ASCII. */
  predicate IsDigit(c: char) { '0' <= c <= '9' }

  /** `\w` restricted to ASCII: letters, digits and the underscore. */
  predicate IsWordChar(c: char) {
    IsDigit(c) || 'a' <= c <= 'z' || 'A' <= c <= 'Z' || c == '_'
  }

  /**
   * `\s` restricted to ASCII: the characters `str.isspace` accepts there, which are space, tab,
   * line feed, vertical tab, form feed, carriage return and the separators 0x1C to 0x1F.
   */
  predicate IsSpace(c: char) { c == ' ' || '\t' <= c <= '\r' || 0x1C <= c as int <= 0x1F }

  predicate AllDigits(s: string) {
    forall k :: 0 <= k < |s| ==> IsDigit(s[k])
  }

  function DigitValue(c: char): (v: nat)
    requires IsDigit(c)
    ensures v < 10
  {
    c as int - '0' as int
  }

  function DigitChar(v: nat): (c: char)
    requires v < 10
    ensures IsDigit(c) && DigitValue(c) == v
  {
    ('0' as int + v) as char
  }

  /** The number a string of decimal digits denotes (Python's `int` on such a string). */
  function DecimalValue(s: string): nat
    requires AllDigits(s)
  {
    if s == [] then 0 else DecimalValue(s[..|s| - 1]) * 10 + DigitValue(s[|s| - 1])
  }

  /** `k` decimal digits denote a number below `10^k`. */
  lemma {:induction false} DecimalValueBound(s: string)
    requires AllDigits(s)
    ensures DecimalValue(s) < Pow10(|s|)
  {
    if s != [] {
      DecimalValueBound(s[..|s| - 1]);
    }
  }

  /** Python's `str` on a non-negative integer: shortest decimal text, no leading zero. */
  function Decimal(n: nat): (s: string)
    ensures |s| >= 1 && AllDigits(s)
    ensures |s| > 1 ==> s[0] != '0'
  {
    if n < 10 then [DigitChar(n)] else Decimal(n / 10) + [DigitChar(n % 10)]
  }

  /** Reading back what `Decimal` writes gives the number again. */
  lemma {:induction false} DecimalRoundTrip(n: nat)
    ensures DecimalValue(Decimal(n)) == n
  {
    if n >= 10 {
      var s := Decimal(n);
      assert s[..|s| - 1] == Decimal(n / 10);
      DecimalRoundTrip(n / 10);
    }
  }

  /** Different numbers have different decimal texts. */
  lemma DecimalInjective(a: nat, b: nat)
    requires Decimal(a) == Decimal(b)
    ensures a == b
  {
    DecimalRoundTrip(a);
    DecimalRoundTrip(b);
  }

  function Pow10(k: nat): (p: nat)
    ensures p >= 1
  {
    if k == 0 then 1 else 10 * Pow10(k - 1)
  }

  /** A number below `10^k` has at most `k` decimal digits. */
  lemma {:induction false} DecimalLengthBound(n: nat, k: nat)
    requires k >= 1 && n < Pow10(k)
    ensures |Decimal(n)| <= k
  {
    if n >= 10 {
      assert k >= 2;
      DecimalLengthBound(n / 10, k - 1);
    }
  }

  /** `"%0<w>d"`: the decimal text of `n`, left-padded with zeros to `w` characters. */
  function ZeroPad(n: nat, w: nat): (s: string)
    ensures AllDigits(s) && DecimalValue(s) == n
    ensures |s| == if |Decimal(n)| < w then w else |Decimal(n)|
  {
    DecimalRoundTrip(n);
    var d := Decimal(n);
    if |d| < w then ZeroPrefix(w - |d|, d) else d
  }

  /** Leading zeros do not change a decimal value. */
  function ZeroPrefix(k: nat, d: string): (s: string)
    requires AllDigits(d)
    ensures AllDigits(s) && |s| == k + |d| && DecimalValue(s) == DecimalValue(d)
    decreases k
  {
    if k == 0 then d
    else
      var t := ZeroPrefix(k - 1, d);
      LeadingZero(t);
      "0" + t
  }

  lemma {:induction false} LeadingZero(t: string)
    requires AllDigits(t)
    ensures AllDigits("0" + t) && DecimalValue("0" + t) == DecimalValue(t)
    decreases |t|
  {
    var s := "0" + t;
    if t != [] {
      assert s[..|s| - 1] == "0" + t[..|t| - 1];
      LeadingZero(t[..|t| - 1]);
    }
  }

  /** Where each of five concatenated pieces sits in the whole. */
  lemma PiecesAt(a: string, b: string, c: string, d: string, e: string)
    ensures var t := a + b + c + d + e;
      var i, j, k, l := |a|, |a| + |b|, |a| + |b| + |c|, |a| + |b| + |c| + |d|;
      && |t| == l + |e| && t[..i] == a && t[i..j] == b && t[j..k] == c && t[k..l] == d && t[l..] == e
  {
  }

  /** A slice of a slice is a slice of the whole. */
  lemma SliceOfSlice(t: string, i: nat, j: nat, x: string, p: nat, q: nat)
    requires i <= j <= |t| && t[i..j] == x && p <= q <= |x|
    ensures t[i + p..i + q] == x[p..q]
  {
    assert forall k :: p <= k < q ==> t[i + k] == x[k];
  }

  /** Python's `sep.join(parts)`. */
  function Join(sep: string, parts: seq<string>): (r: string)
    ensures |parts| == 1 ==> r == parts[0]
    ensures parts == [] ==> r == []
  {
    if parts == [] then []
    else if |parts| == 1 then parts[0]
    else parts[0] + sep + Join(sep, parts[1..])
  }

  /** The summed lengths of the parts. */
  function TotalLength(parts: seq<string>): nat {
    if parts == [] then 0 else |parts[0]| + TotalLength(parts[1..])
  }

  /** The joined text is as long as the parts plus one separator between each neighbouring pair. */
  lemma {:induction false} JoinLength(sep: string, parts: seq<string>)
    requires parts != []
    ensures |Join(sep, parts)| == TotalLength(parts) + (|parts| - 1) * |sep|
  {
    if |parts| > 1 {
      JoinLength(sep, parts[1..]);
    }
  }

  /** ASCII lower-casing, the case folding applied to month names. */
  function Lower(c: char): (r: char)
    ensures 'A' <= c <= 'Z' ==> 'a' <= r <= 'z'
    ensures !('A' <= c <= 'Z') ==> r == c
  {
    if 'A' <= c <= 'Z' then (c as int + 32) as char else c
  }
}
