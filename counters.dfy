/** Reading the meter's counter text: `text.replace(',', '.')` followed by
    `float(...)`, for plain decimal text, read as an exact number. */
module CounterText {
  import opened Wrappers
  import opened Text

  function Pow10(n: nat): (p: nat)
    ensures p >= 1
  {
    if n == 0 then 1 else 10 * Pow10(n - 1)
  }

  /** The value of the digits after the decimal point. */
  function Fraction(frac: string): real
    requires AllDigits(frac)
  {
    DigitsValue(frac) as real / Pow10(|frac|) as real
  }

  /** An unsigned decimal: the digits `whole`, then either nothing or a point and
      more digits; there must be a digit somewhere. */
  function Magnitude(whole: string, tail: string): Option<real>
    requires AllDigits(whole)
  {
    if |tail| == 0 then
      if |whole| == 0 then None else Some(DigitsValue(whole) as real)
    else if tail[0] != '.' || !AllDigits(tail[1..]) || (|whole| == 0 && |tail| == 1) then None
    else Some(DigitsValue(whole) as real + Fraction(tail[1..]))
  }

  /** `float(text)` on plain decimal text: an optional sign, digits, and an
      optional point with more digits. Other text is `None`, including forms
      Python's `float` also reads (surrounding whitespace, an exponent, digit
      underscores, `inf` and `nan`). */
  function ParseDecimal(s: string): Option<real> {
    var signed := |s| > 0 && (s[0] == '-' || s[0] == '+');
    var body := if signed then s[1..] else s;
    var k := DigitRun(body);
    var magnitude :- Magnitude(body[..k], body[k..]);
    Some(if signed && s[0] == '-' then -magnitude else magnitude)
  }

  /** A counter cell: the comma decimal separator becomes a point, then the text is read as a number. */
  function ParseCounter(text: string): Option<real> {
    ParseDecimal(ReplaceChar(text, ',', '.'))
  }

  /** Comma-decimal text reads as its value: `whole,frac` is whole + frac / 10^|frac|. */
  lemma CommaDecimal(whole: string, frac: string)
    requires |whole| >= 1 && AllDigits(whole) && AllDigits(frac)
    ensures ParseCounter(whole + "," + frac) == Some(DigitsValue(whole) as real + Fraction(frac))
  {
    CommaBecomesPoint(whole, frac);
    PointDecimal(whole, frac);
  }

  lemma CommaBecomesPoint(whole: string, frac: string)
    requires AllDigits(whole) && AllDigits(frac)
    ensures ReplaceChar(whole + "," + frac, ',', '.') == whole + "." + frac
  {
    ReplaceCharAppend(whole + ",", frac, ',', '.');
    ReplaceCharAppend(whole, ",", ',', '.');
    ReplaceCharDigits(whole, ',', '.');
    ReplaceCharDigits(frac, ',', '.');
    assert ReplaceChar(",", ',', '.') == ".";
  }

  lemma PointDecimal(whole: string, frac: string)
    requires |whole| >= 1 && AllDigits(whole) && AllDigits(frac)
    ensures ParseDecimal(whole + "." + frac) == Some(DigitsValue(whole) as real + Fraction(frac))
  {
    var tail := "." + frac;
    var dotted := whole + tail;
    assert whole + "." + frac == dotted;
    DigitRunStopsAt(whole, tail);
    assert dotted[0] == whole[0];
    assert !(dotted[0] == '-' || dotted[0] == '+');
    assert dotted[..|whole|] == whole;
    assert dotted[|whole|..] == tail;
    PointMagnitude(whole, frac);
  }

  lemma PointMagnitude(whole: string, frac: string)
    requires |whole| >= 1 && AllDigits(whole) && AllDigits(frac)
    ensures Magnitude(whole, "." + frac) == Some(DigitsValue(whole) as real + Fraction(frac))
  {
    assert ("." + frac)[1..] == frac;
  }

  /** The meter's sample values: `100,5` is 100.5 and `50,0` is 50.0. */
  lemma CounterExample()
    ensures ParseCounter("100,5") == Some(100.5)
    ensures ParseCounter("50,0") == Some(50.0)
  {
    ExampleConsumption();
    ExampleFeed();
  }

  lemma ExampleConsumption()
    ensures ParseCounter("100,5") == Some(100.5)
  {
    assert DigitsValue("100") == 100 by {
      assert "100"[..2] == "10" && "10"[..1] == "1" && "1"[..0] == "";
    }
    assert Fraction("5") == 0.5 by {
      assert "5"[..0] == "";
      assert Pow10(1) == 10;
    }
    assert "100,5" == "100" + "," + "5";
    CommaDecimal("100", "5");
  }

  lemma ExampleFeed()
    ensures ParseCounter("50,0") == Some(50.0)
  {
    assert DigitsValue("50") == 50 by {
      assert "50"[..1] == "5" && "5"[..0] == "";
    }
    assert Fraction("0") == 0.0 by {
      assert "0"[..0] == "";
    }
    assert "50,0" == "50" + "," + "0";
    CommaDecimal("50", "0");
  }

  /** Text with a thousands separator as well as a decimal comma does not read as a number. */
  lemma TwoCommasRejected(a: string, b: string, c: string)
    requires |a| >= 1 && AllDigits(a) && AllDigits(b) && AllDigits(c)
    ensures ParseCounter(a + "," + b + "," + c) == None
  {
    var text := a + "," + b + "," + c;
    var dotted := a + "." + b + "." + c;
    ReplaceCharAppend(a + "," + b + ",", c, ',', '.');
    ReplaceCharAppend(a + "," + b, ",", ',', '.');
    ReplaceCharAppend(a + ",", b, ',', '.');
    ReplaceCharAppend(a, ",", ',', '.');
    ReplaceCharDigits(a, ',', '.');
    ReplaceCharDigits(b, ',', '.');
    ReplaceCharDigits(c, ',', '.');
    assert ReplaceChar(",", ',', '.') == ".";
    assert ReplaceChar(text, ',', '.') == dotted;
    assert dotted == a + ("." + b + "." + c);
    DigitRunStopsAt(a, "." + b + "." + c);
    assert dotted[|a|..] == "." + b + "." + c;
    var tail := "." + b + "." + c;
    assert tail[1..][|b|] == '.';
  }
}
