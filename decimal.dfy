/** Decimal numerals: Python's `float()` on signed digit/dot literals with
    surrounding whitespace, read as an exact `real`, and the decimal
    rendering of natural numbers that f-strings produce. */
module Decimal {
  import opened Results
  import opened PyStr

  predicate IsDigit(c: char)
  {
    '0' <= c <= '9'
  }

  predicate AllDigits(s: string)
  {
    forall i :: 0 <= i < |s| ==> IsDigit(s[i])
  }

  function DigitValue(c: char): nat
    requires IsDigit(c)
  {
    c as int - '0' as int
  }

  function DigitChar(d: nat): (c: char)
    requires d < 10
    ensures IsDigit(c) && DigitValue(c) == d
  {
    ('0' as int + d) as char
  }

  /** The number a string of decimal digits denotes (most significant first). */
  function DigitsValue(s: string): nat
    requires AllDigits(s)
    decreases |s|
  {
    if s == [] then 0 else DigitsValue(s[..|s| - 1]) * 10 + DigitValue(s[|s| - 1])
  }

  function Pow10(k: nat): (p: nat)
    ensures p >= 1
  {
    if k == 0 then 1 else 10 * Pow10(k - 1)
  }

  /** The value of the numeral `whole.frac`. */
  function PointValue(whole: string, frac: string): real
    requires AllDigits(whole) && AllDigits(frac)
  {
    DigitsValue(whole) as real + DigitsValue(frac) as real / Pow10(|frac|) as real
  }

  /** The unsigned numerals this model lets `float()` accept: digits with at
      most one decimal point, and at least one digit. */
  predicate IsDecimalLiteral(s: string)
  {
    && (forall i :: 0 <= i < |s| ==> IsDigit(s[i]) || s[i] == '.')
    && (forall i, j :: 0 <= i < j < |s| && s[i] == '.' ==> s[j] != '.')
    && (exists i :: 0 <= i < |s| && IsDigit(s[i]))
  }

  /** An unsigned numeral: the text before the point is the integer part,
      the text after it the fraction. */
  function ParseNumeral(s: string): (r: Option<real>)
    ensures r.Some? ==> r.value >= 0.0
  {
    var d := Find(s, ".");
    if d < 0 then
      if s != [] && AllDigits(s) then Some(DigitsValue(s) as real) else None
    else
      var whole := s[..d];
      var frac := s[d + 1..];
      if AllDigits(whole) && AllDigits(frac) && |whole| + |frac| > 0 then
        Some(PointValue(whole, frac))
      else
        None
  }

  /** Python `float(s)`: surrounding whitespace is ignored and a sign may
      precede the numeral. `None` stands for the `ValueError` it raises. */
  function ParseFloat(s: string): (r: Option<real>)
    ensures r.Some? && r.value < 0.0 ==> Strip(s) != [] && Strip(s)[0] == '-'
  {
    var t := Strip(s);
    if t != [] && (t[0] == '+' || t[0] == '-') then
      match ParseNumeral(t[1..])
      case Some(v) => Some(if t[0] == '-' then -v else v)
      case None => None
    else
      ParseNumeral(t)
  }

  /** Positions before the first occurrence `Find` reports hold no point. */
  lemma NoPointBefore(s: string, k: int)
    requires 0 <= k <= |s|
    requires forall j :: 0 <= j < k ==> !OccursAt(s, ".", j)
    ensures forall i :: 0 <= i < k ==> s[i] != '.'
  {
    forall i | 0 <= i < k ensures s[i] != '.' {
      assert "." == ['.'];
      OccursAtChar(s, '.', i);
    }
  }

  /** Without a point, a decimal literal is a non-empty digit string. */
  lemma LiteralWithoutPoint(s: string)
    requires forall i :: 0 <= i < |s| ==> s[i] != '.'
    ensures IsDecimalLiteral(s) <==> s != [] && AllDigits(s)
  {
    if s != [] && AllDigits(s) {
      assert IsDigit(s[0]);
    }
  }

  /** With its first point at `d`, a decimal literal is digits, the point,
      and digits, with at least one digit in all. */
  lemma LiteralWithPoint(s: string, d: int)
    requires 0 <= d < |s| && s[d] == '.'
    requires forall i :: 0 <= i < d ==> s[i] != '.'
    ensures IsDecimalLiteral(s) <==> AllDigits(s[..d]) && AllDigits(s[d + 1..]) && |s| > 1
  {
    if IsDecimalLiteral(s) {
      LiteralParts(s, d);
    }
    if AllDigits(s[..d]) && AllDigits(s[d + 1..]) && |s| > 1 {
      PartsLiteral(s, d);
    }
  }

  lemma LiteralParts(s: string, d: int)
    requires 0 <= d < |s| && s[d] == '.'
    requires forall i :: 0 <= i < d ==> s[i] != '.'
    requires IsDecimalLiteral(s)
    ensures AllDigits(s[..d]) && AllDigits(s[d + 1..]) && |s| > 1
  {
    var whole, frac := s[..d], s[d + 1..];
    forall i | 0 <= i < |whole| ensures IsDigit(whole[i]) {
      assert whole[i] == s[i];
    }
    forall i | 0 <= i < |frac| ensures IsDigit(frac[i]) {
      assert frac[i] == s[d + 1 + i];
      assert s[d + 1 + i] != '.' by {
        assert d < d + 1 + i < |s| && s[d] == '.';
      }
    }
    var k :| 0 <= k < |s| && IsDigit(s[k]);
    assert k != d;
  }

  lemma PartsLiteral(s: string, d: int)
    requires 0 <= d < |s| && s[d] == '.'
    requires forall i :: 0 <= i < d ==> s[i] != '.'
    requires AllDigits(s[..d]) && AllDigits(s[d + 1..]) && |s| > 1
    ensures IsDecimalLiteral(s)
  {
    var whole, frac := s[..d], s[d + 1..];
    forall i | 0 <= i < |s| ensures IsDigit(s[i]) || s[i] == '.' {
      if i < d {
        assert s[i] == whole[i];
      } else if i > d {
        assert s[i] == frac[i - d - 1];
      }
    }
    forall i | d < i < |s| ensures s[i] != '.' {
      assert s[i] == frac[i - d - 1];
    }
    if d > 0 {
      assert IsDigit(s[0]) by { assert s[0] == whole[0]; }
    } else {
      assert IsDigit(s[1]) by { assert s[1] == frac[0]; }
    }
  }

  /** The numeral reading succeeds exactly on the decimal literals. */
  lemma ParseNumeralDomain(s: string)
    ensures ParseNumeral(s).Some? <==> IsDecimalLiteral(s)
  {
    var d := Find(s, ".");
    FindFirst(s, ".");
    if d < 0 {
      NoPointBefore(s, |s|);
      LiteralWithoutPoint(s);
    } else {
      assert "." == ['.'];
      OccursAtChar(s, '.', d);
      NoPointBefore(s, d);
      LiteralWithPoint(s, d);
      assert |s[..d]| + |s[d + 1..]| == |s| - 1;
    }
  }

  /** A trimmed text without a sign is read as a numeral. */
  lemma ParseFloatUnsigned(s: string)
    requires Trimmed(s) && (s == [] || (s[0] != '+' && s[0] != '-'))
    ensures ParseFloat(s) == ParseNumeral(s)
  {
    StripTrimmed(s);
  }

  /** A sign followed by a body that does not end in whitespace is trimmed. */
  lemma SignedTrimmed(sign: char, body: string)
    requires sign == '+' || sign == '-'
    requires body == [] || !IsSpace(body[|body| - 1])
    ensures Trimmed([sign] + body)
    ensures ([sign] + body)[0] == sign && ([sign] + body)[1..] == body
  {
    var t := [sign] + body;
    assert t[|t| - 1] == if body == [] then sign else body[|body| - 1];
  }

  /** A trimmed text with a leading sign: the numeral after the sign, negated
      for `-`. */
  lemma ParseFloatSignedTrimmed(t: string)
    requires Trimmed(t) && t != [] && (t[0] == '+' || t[0] == '-')
    ensures ParseFloat(t)
         == match ParseNumeral(t[1..])
            case Some(v) => Some(if t[0] == '-' then -v else v)
            case None => None
  {
    StripTrimmed(t);
  }

  /** A sign directly before the numeral: `-` negates it, `+` keeps it. */
  lemma ParseFloatSigned(sign: char, body: string)
    requires sign == '+' || sign == '-'
    requires body == [] || !IsSpace(body[|body| - 1])
    ensures ParseFloat([sign] + body)
         == match ParseNumeral(body)
            case Some(v) => Some(if sign == '-' then -v else v)
            case None => None
  {
    SignedTrimmed(sign, body);
    ParseFloatSignedTrimmed([sign] + body);
  }

  /** Whitespace around a trimmed text does not change what `float()` reads. */
  lemma ParseFloatPadded(w1: string, s: string, w2: string)
    requires AllSpace(w1) && AllSpace(w2) && s != [] && Trimmed(s)
    ensures ParseFloat(w1 + s + w2) == ParseFloat(s)
  {
    StripPadded(w1, s, w2);
    StripTrimmed(s);
    SameStripSameFloat(w1 + s + w2, s);
  }

  /** `float()` depends only on the stripped text. */
  lemma SameStripSameFloat(a: string, b: string)
    requires Strip(a) == Strip(b)
    ensures ParseFloat(a) == ParseFloat(b)
  {
  }

  lemma NoPointInDigits(w: string)
    requires AllDigits(w)
    ensures '.' !in w
  {
    forall i | 0 <= i < |w| ensures w[i] != '.' {
      assert IsDigit(w[i]);
    }
  }

  /** `float()` of an integer literal is its value. */
  lemma ParseFloatInteger(w: string)
    requires AllDigits(w) && w != []
    ensures ParseFloat(w) == Some(DigitsValue(w) as real)
  {
    assert IsDigit(w[0]) && IsDigit(w[|w| - 1]);
    ParseFloatUnsigned(w);
    NoPointInDigits(w);
    FindCharAbsent(w, '.');
  }

  /** `float()` of `whole.frac` is the integer part plus the fraction scaled
      by its number of digits. */
  lemma ParseFloatPoint(whole: string, frac: string)
    requires AllDigits(whole) && AllDigits(frac) && |whole| + |frac| > 0
    ensures ParseFloat(whole + "." + frac) == Some(PointValue(whole, frac))
  {
    var s := whole + "." + frac;
    assert s[0] == if whole == [] then '.' else whole[0];
    assert s[|s| - 1] == if frac == [] then '.' else frac[|frac| - 1];
    ParseFloatUnsigned(s);
    NoPointInDigits(whole);
    FindChar(whole, '.', frac);
    assert "." == ['.'];
    assert Find(s, ".") == |whole|;
    assert s[..|whole|] == whole;
    assert s[|whole| + 1..] == frac;
  }

  /** Python `str(n)` for a natural number. */
  function NatToDecimal(n: nat): (s: string)
    ensures AllDigits(s) && |s| >= 1
    ensures DigitsValue(s) == n
    ensures s[0] != '0' || s == "0"
    decreases n
  {
    if n < 10 then [DigitChar(n)]
    else
      var prefix := NatToDecimal(n / 10);
      var s := prefix + [DigitChar(n % 10)];
      assert s[..|s| - 1] == prefix;
      s
  }

  /** Rendering then `float()` gives the number back exactly. */
  lemma ParseRendered(n: nat)
    ensures ParseFloat(NatToDecimal(n)) == Some(n as real)
  {
    ParseFloatInteger(NatToDecimal(n));
  }

  /** Appending two zeros to a positive number's numeral multiplies it by 100. */
  lemma {:induction false} AppendZerosTimes100(n: nat)
    requires n > 0
    ensures NatToDecimal(n) + "00" == NatToDecimal(100 * n)
  {
    assert NatToDecimal(10 * n) == NatToDecimal(n) + "0" by {
      assert (10 * n) / 10 == n && (10 * n) % 10 == 0;
    }
    assert NatToDecimal(100 * n) == NatToDecimal(10 * n) + "0" by {
      assert (100 * n) / 10 == 10 * n && (100 * n) % 10 == 0;
    }
  }
}
