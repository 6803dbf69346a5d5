/**
 * Reading numbers out of text: the regular expression `(\d+)` that the
 * numeric columns are run through, and Python's `float()` on the parts of a
 * range. Values are exact reals; binary floating point is not modelled.
 */
module Numbers {
  import opened Wrappers
  import opened Text

  ghost predicate AllDigits(s: string) {
    forall i :: 0 <= i < |s| ==> IsDigit(s[i])
  }

  ghost predicate NoDigit(s: string) {
    forall i :: 0 <= i < |s| ==> !IsDigit(s[i])
  }

  function DigitValue(c: char): (d: nat)
    requires IsDigit(c)
    ensures d < 10
  {
    c as int - '0' as int
  }

  /**
   * The value of a string of digits and `_` separators, read in base ten;
   * separators carry no value (Python accepts `1_000` as 1000).
   */
  function NatValue(s: string): nat
    requires forall i :: 0 <= i < |s| ==> IsDigit(s[i]) || s[i] == '_'
  {
    if s == [] then 0
    else if s[|s| - 1] == '_' then NatValue(s[..|s| - 1])
    else 10 * NatValue(s[..|s| - 1]) + DigitValue(s[|s| - 1])
  }

  /** Number of digits (not separators) in `s`. */
  function DigitCount(s: string): nat {
    if s == [] then 0 else (if IsDigit(s[0]) then 1 else 0) + DigitCount(s[1..])
  }

  function Pow10(k: nat): (p: nat)
    ensures p >= 1
  {
    if k == 0 then 1 else 10 * Pow10(k - 1)
  }

  // ---------------------------------------------------------------------------
  // The first match of the regular expression `\d+`

  function FirstDigit(s: string): (i: nat)
    ensures i <= |s| && NoDigit(s[..i]) && (i < |s| ==> IsDigit(s[i]))
  {
    if s == [] || IsDigit(s[0]) then 0 else 1 + FirstDigit(s[1..])
  }

  function RunLength(s: string): (n: nat)
    ensures n <= |s| && AllDigits(s[..n]) && (n < |s| ==> !IsDigit(s[n]))
  {
    if s != [] && IsDigit(s[0]) then 1 + RunLength(s[1..]) else 0
  }

  /**
   * `d` is the leftmost maximal run of digits in `s`, starting at `i`: no digit
   * comes before it, all of it is digits, and the character after it is not.
   */
  ghost predicate IsFirstRun(s: string, i: nat, d: string) {
    d != [] && i + |d| <= |s| && s[i..i + |d|] == d && AllDigits(d) &&
    NoDigit(s[..i]) && (i + |d| == |s| || !IsDigit(s[i + |d|]))
  }

  /** What `re.search(r"(\d+)", s)` captures, if anything. */
  function FirstDigitRun(s: string): (r: Option<string>)
    ensures r.None? <==> NoDigit(s)
    ensures r.Some? ==> r.value != [] && AllDigits(r.value)
    ensures r.Some? ==> exists i: nat :: IsFirstRun(s, i, r.value)
  {
    var i := FirstDigit(s);
    if i == |s| then
      assert s[..i] == s;
      None
    else
      var n := RunLength(s[i..]);
      var d := s[i..i + n];
      assert d == s[i..][..n];
      assert s[i..][0] == s[i];
      assert IsFirstRun(s, i, d);
      Some(d)
  }

  /** The first digit run of a string is unique. */
  lemma FirstRunUnique(s: string, i: nat, d: string, j: nat, e: string)
    requires IsFirstRun(s, i, d) && IsFirstRun(s, j, e)
    ensures i == j && d == e
  {
    forall k | 0 <= k < i ensures !IsDigit(s[k]) {
      assert s[..i][k] == s[k];
    }
    forall k | 0 <= k < j ensures !IsDigit(s[k]) {
      assert s[..j][k] == s[k];
    }
    assert IsDigit(s[i]) && IsDigit(s[j]) by {
      assert s[i] == d[0] && s[j] == e[0];
    }
    forall k | i <= k < i + |d| ensures IsDigit(s[k]) {
      assert s[k] == d[k - i];
    }
    forall k | j <= k < j + |e| ensures IsDigit(s[k]) {
      assert s[k] == e[k - j];
    }
  }

  // ---------------------------------------------------------------------------
  // Python's float() on a string without letters

  /** Python's `digitpart`: digits, each `_` standing between two digits. */
  predicate IsDigitPart(t: string) {
    t != [] && IsDigit(t[0]) && IsDigit(t[|t| - 1]) &&
    (forall i :: 0 <= i < |t| ==> IsDigit(t[i]) || t[i] == '_') &&
    (forall i, j :: 0 <= i && j == i + 1 < |t| ==> t[i] != '_' || t[j] != '_')
  }

  function IndexOf(s: string, c: char): (i: nat)
    ensures i <= |s| && c !in s[..i] && (i < |s| ==> s[i] == c)
  {
    if s == [] || s[0] == c then 0 else 1 + IndexOf(s[1..], c)
  }

  /** The value of `whole.frac`, where `frac` has DigitCount(frac) digits. */
  function PointValue(whole: string, frac: string): real
    requires forall i :: 0 <= i < |whole| ==> IsDigit(whole[i]) || whole[i] == '_'
    requires forall i :: 0 <= i < |frac| ==> IsDigit(frac[i]) || frac[i] == '_'
  {
    NatValue(whole) as real + NatValue(frac) as real / Pow10(DigitCount(frac)) as real
  }

  /**
   * An unsigned decimal literal: `digitpart`, `digitpart "." [digitpart]` or
   * `"." digitpart`, with its exact value.
   */
  function ParseUnsigned(t: string): Option<real> {
    var i := IndexOf(t, '.');
    if i == |t| then
      if IsDigitPart(t) then Some(NatValue(t) as real) else None
    else
      var whole, frac := t[..i], t[i + 1..];
      if whole == [] && frac == [] then None
      else if (whole == [] || IsDigitPart(whole)) && (frac == [] || IsDigitPart(frac)) then
        Some(PointValue(whole, frac))
      else None
  }

  /**
   * Python's `float(p)` for text without ASCII letters, the only text it is
   * given here: surrounding whitespace is ignored, an optional sign is
   * followed by a decimal literal; anything else raises ValueError (`None`).
   * The forms that need letters (exponents, `inf`, `nan`) are not modelled.
   */
  function ParseFloat(p: string): (r: Option<real>)
    ensures r.Some? ==> Strip(p) != []
  {
    var t := Strip(p);
    if t != [] && t[0] == '+' then ParseUnsigned(t[1..])
    else if t != [] && t[0] == '-' then
      match ParseUnsigned(t[1..])
      case Some(x) => Some(-x)
      case None => None
    else ParseUnsigned(t)
  }

  lemma DigitsArePart(ds: string)
    requires ds != [] && AllDigits(ds)
    ensures IsDigitPart(ds)
  {
  }

  /** A non-empty string of digits reads as its base-ten value. */
  lemma ParseDigits(ds: string)
    requires ds != [] && AllDigits(ds)
    ensures ParseFloat(ds) == Some(NatValue(ds) as real)
  {
    StripStripped(ds);
    assert '.' !in ds;
    DigitsArePart(ds);
  }

  /** A numeral with a decimal point reads as whole part plus fraction. */
  lemma ParsePoint(w: string, f: string)
    requires w != [] && AllDigits(w) && f != [] && AllDigits(f)
    ensures ParseFloat(w + "." + f) == Some(PointValue(w, f))
    ensures DigitCount(f) == |f|
  {
    var s := w + "." + f;
    assert s[0] == w[0] && s[|s| - 1] == f[|f| - 1];
    assert Stripped(s);
    StripStripped(s);
    assert s[0] != '+' && s[0] != '-';
    UnsignedPoint(w, f);
    DigitCountAll(f);
  }

  lemma UnsignedPoint(w: string, f: string)
    requires w != [] && AllDigits(w) && f != [] && AllDigits(f)
    ensures ParseUnsigned(w + "." + f) == Some(PointValue(w, f))
  {
    var s := w + "." + f;
    assert s[..|w|] == w && s[|w|] == '.' && s[|w| + 1..] == f;
    IndexOfFirst(s, '.', |w|);
    DigitsArePart(w);
    DigitsArePart(f);
    DigitCountAll(f);
    var i := IndexOf(s, '.');
    var whole, frac := s[..i], s[i + 1..];
    assert whole == w && frac == f;
  }

  lemma {:induction false} IndexOfFirst(s: string, c: char, k: nat)
    requires k < |s| && s[k] == c && c !in s[..k]
    ensures IndexOf(s, c) == k
  {
    if k > 0 {
      assert s[0] == s[..k][0];
      assert s[1..][..k - 1] == s[..k][1..];
      IndexOfFirst(s[1..], c, k - 1);
    }
  }

  lemma {:induction false} DigitCountAll(ds: string)
    requires AllDigits(ds)
    ensures DigitCount(ds) == |ds|
  {
    if ds != [] {
      DigitCountAll(ds[1..]);
    }
  }
}
