/** Python's number parsing as the extractor uses it: `float(s)` on the pieces of a
    coordinate, and `int(re.sub('\D', '', s))` on a passenger figure.  Only ASCII
    digits and plain decimal notation are modelled (see README). */
module PyNum {
  import opened Results
  import opened PyStr

  predicate IsDigit(c: char) {
    '0' <= c <= '9'
  }

  predicate AllDigits(s: string) {
    forall i :: 0 <= i < |s| ==> IsDigit(s[i])
  }

  function DigitValue(c: char): (d: nat)
    requires IsDigit(c)
    ensures d < 10
  {
    c as int - '0' as int
  }

  function DigitChar(d: nat): (c: char)
    requires d < 10
    ensures IsDigit(c) && DigitValue(c) == d
  {
    ('0' as int + d) as char
  }

  /** The number a string of decimal digits denotes, most significant first. */
  function DigitsValue(s: string): nat
    requires AllDigits(s)
  {
    if |s| == 0 then 0 else 10 * DigitsValue(s[..|s| - 1]) + DigitValue(s[|s| - 1])
  }

  function Pow10(k: nat): (p: nat)
    ensures p >= 1
  {
    if k == 0 then 1 else 10 * Pow10(k - 1)
  }

  /** `str(n)`: the decimal digits of `n`, without leading zeros. */
  function NatToString(n: nat): (s: string)
    ensures |s| > 0 && AllDigits(s)
    ensures n >= 10 ==> s[0] != '0'
  {
    if n < 10 then [DigitChar(n)] else NatToString(n / 10) + [DigitChar(n % 10)]
  }

  /** Reading back the digits of `n` gives `n`. */
  lemma {:induction false} NatToStringRoundTrip(n: nat)
    ensures DigitsValue(NatToString(n)) == n
  {
    if n >= 10 {
      var s := NatToString(n);
      NatToStringRoundTrip(n / 10);
      assert s[..|s| - 1] == NatToString(n / 10);
    }
  }

  /** The value of `whole.frac` written with `|frac|` fractional digits. */
  function DecimalValue(whole: string, frac: string): real
    requires AllDigits(whole) && AllDigits(frac)
  {
    DigitsValue(whole) as real + DigitsValue(frac) as real / Pow10(|frac|) as real
  }

  /** An unsigned decimal in the form `float()` accepts it here: digits, or digits
      around one point with at least one digit in all. */
  function ParseUnsigned(t: string): (r: Result<real>)
    ensures r.Ok? ==> r.value >= 0.0
    ensures r.Err? ==> r.error == ValueError
    ensures r.Ok? ==> NumeralChars(t) && HasDigit(t)
    ensures AllDigits(t) ==> (r.Ok? <==> |t| > 0)
  {
    match IndexOf(t, ".")
    case None =>
      if |t| > 0 && AllDigits(t) then Ok(DigitsValue(t) as real) else Err(ValueError)
    case Some(p) =>
      var whole, frac := t[..p], t[p + 1..];
      if |whole| + |frac| > 0 && AllDigits(whole) && AllDigits(frac) then
        assert t[p..p + 1] == ".";
        assert forall i :: 0 <= i < |t| ==> t[i] == (if i < p then whole[i] else if i == p then '.' else frac[i - p - 1]);
        assert IsDigit(t[if |whole| > 0 then 0 else p + 1]);
        Ok(DecimalValue(whole, frac))
      else
        assert IsDigit(t[p]) ==> false by { assert t[p..p + 1] == "."; }
        Err(ValueError)
  }

  /** Every character is a digit or a decimal point. */
  predicate NumeralChars(t: string) {
    forall i :: 0 <= i < |t| ==> IsDigit(t[i]) || t[i] == '.'
  }

  predicate HasDigit(t: string) {
    exists i :: 0 <= i < |t| && IsDigit(t[i])
  }

  /** Digits and points, with at least one digit, after an optional sign. */
  predicate SignedNumeral(t: string) {
    && HasDigit(t)
    && (NumeralChars(t) || (|t| > 0 && (t[0] == '+' || t[0] == '-') && NumeralChars(t[1..])))
  }

  /** `float(s)`: surrounding whitespace is stripped, then an optional sign and an
      unsigned decimal; anything else raises ValueError. */
  function ParseFloat(s: string): (r: Result<real>)
    ensures Strip(s) == "" ==> r == Err(ValueError)
    ensures r.Err? ==> r.error == ValueError
    ensures r.Ok? ==> SignedNumeral(Strip(s))
  {
    var t := Strip(s);
    if |t| > 0 && (t[0] == '+' || t[0] == '-') then
      var v :- ParseUnsigned(t[1..]);
      assert HasDigit(t) by {
        var i :| 0 <= i < |t[1..]| && IsDigit(t[1..][i]);
        assert t[i + 1] == t[1..][i];
      }
      Ok(if t[0] == '-' then -v else v)
    else
      ParseUnsigned(t)
  }

  /** How a non-negative decimal is written: `w` alone, or `w.f` with the digits `f`. */
  function DecimalText(w: nat, frac: string): string {
    if frac == "" then NatToString(w) else NatToString(w) + "." + frac
  }

  /** A digit string that does not start with a sign is parsed by `float()` unsigned. */
  lemma ParseFloatUnsigned(t: string)
    requires |t| > 0 && IsDigit(t[0]) && IsDigit(t[|t| - 1])
    ensures ParseFloat(t) == ParseUnsigned(t)
  {
    StripUnchanged(t);
  }

  /** `float()` reads back a written decimal exactly. */
  lemma ParseFloatRoundTrip(w: nat, frac: string)
    requires AllDigits(frac)
    ensures ParseFloat(DecimalText(w, frac)) == Ok(DecimalValue(NatToString(w), frac))
    ensures DecimalValue(NatToString(w), frac) == w as real + DigitsValue(frac) as real / Pow10(|frac|) as real
  {
    NatToStringRoundTrip(w);
    if frac == "" {
      ParseWholeText(w);
    } else {
      ParsePointText(NatToString(w), frac);
    }
  }

  /** `float(str(w)) == w`. */
  lemma ParseWholeText(w: nat)
    ensures ParseFloat(NatToString(w)) == Ok(w as real)
    ensures ParseFloat(NatToString(w)) == Ok(DecimalValue(NatToString(w), ""))
  {
    var t := NatToString(w);
    NatToStringRoundTrip(w);
    ParseFloatUnsigned(t);
    AbsentSeparator(t, ".");
  }

  lemma ParsePointText(ws: string, frac: string)
    requires |ws| > 0 && AllDigits(ws) && |frac| > 0 && AllDigits(frac)
    ensures ParseFloat(ws + "." + frac) == Ok(DecimalValue(ws, frac))
  {
    var t := ws + "." + frac;
    assert ParseUnsigned(t) == Ok(DecimalValue(ws, frac)) by {
      assert IndexOf(t, ".") == Some(|ws|) by {
        FirstOccurrence("", ws, ".", frac);
        assert "" + ws + "." + frac == t;
      }
      assert t[..|ws|] == ws && t[|ws| + 1..] == frac;
      ParseUnsignedPoint(t, |ws|);
    }
    assert ParseFloat(t) == ParseUnsigned(t) by {
      assert t[|t| - 1] == frac[|frac| - 1];
      assert t[0] == ws[0];
      ParseFloatUnsigned(t);
    }
  }

  lemma ParseUnsignedPoint(t: string, p: nat)
    requires IndexOf(t, ".") == Some(p)
    requires p > 0 && AllDigits(t[..p]) && AllDigits(t[p + 1..])
    ensures ParseUnsigned(t) == Ok(DecimalValue(t[..p], t[p + 1..]))
  {
  }

  /** `int(s)`: surrounding whitespace is stripped, then an optional sign and at
      least one digit; anything else raises ValueError. */
  function PyInt(s: string): (r: Result<int>)
    ensures Strip(s) == "" ==> r == Err(ValueError)
    ensures r.Err? ==> r.error == ValueError
    ensures AllDigits(s) ==> (r.Ok? <==> |s| > 0)
    ensures AllDigits(s) && |s| > 0 ==> r == Ok(DigitsValue(s))
  {
    StripDigits(s);
    var t := Strip(s);
    if |t| > 0 && (t[0] == '+' || t[0] == '-') then
      var u := t[1..];
      if |u| > 0 && AllDigits(u)
      then Ok(if t[0] == '-' then -(DigitsValue(u) as int) else DigitsValue(u))
      else Err(ValueError)
    else if |t| > 0 && AllDigits(t) then Ok(DigitsValue(t))
    else Err(ValueError)
  }

  /** Digits are not whitespace, so stripping leaves a digit string alone. */
  lemma StripDigits(s: string)
    ensures AllDigits(s) ==> Strip(s) == s
  {
    if AllDigits(s) {
      StripUnchanged(s);
    }
  }

  /** `re.sub('\D', '', s)`: the digits of `s` in order, everything else dropped. */
  function RemoveNonDigits(s: string): (r: string)
    ensures AllDigits(r) && |r| <= |s|
    ensures |r| == 0 <==> forall i :: 0 <= i < |s| ==> !IsDigit(s[i])
  {
    if |s| == 0 then ""
    else (if IsDigit(s[0]) then [s[0]] else "") + RemoveNonDigits(s[1..])
  }

  /** Removing non-digits distributes over concatenation. */
  lemma {:induction false} RemoveNonDigitsConcat(a: string, b: string)
    ensures RemoveNonDigits(a + b) == RemoveNonDigits(a) + RemoveNonDigits(b)
    decreases |a|
  {
    if |a| == 0 {
      assert a + b == b;
    } else {
      var first := if IsDigit(a[0]) then [a[0]] else "";
      assert (a + b)[0] == a[0];
      assert (a + b)[1..] == a[1..] + b;
      RemoveNonDigitsConcat(a[1..], b);
      calc {
        RemoveNonDigits(a + b);
        first + RemoveNonDigits(a[1..] + b);
        first + (RemoveNonDigits(a[1..]) + RemoveNonDigits(b));
        (first + RemoveNonDigits(a[1..])) + RemoveNonDigits(b);
        RemoveNonDigits(a) + RemoveNonDigits(b);
      }
    }
  }

  /** A string of digits is left as it is; a string without digits vanishes. */
  lemma {:induction false} RemoveNonDigitsExtremes(s: string)
    ensures AllDigits(s) ==> RemoveNonDigits(s) == s
    ensures (forall i :: 0 <= i < |s| ==> !IsDigit(s[i])) ==> RemoveNonDigits(s) == ""
    decreases |s|
  {
    if |s| > 0 {
      RemoveNonDigitsExtremes(s[1..]);
    }
  }
}
