/** How the parser reads a text by positions: blanks and numbers. */
module TextReader {
  import opened CString
  import Grammar
  import opened Json
  import Parser

  /** `skip` on the text from `pos` on. */
  method SkipAt(text: string, pos: nat) returns (p: nat)
    requires pos <= |text|
    ensures pos <= p <= |text| && text[p..] == Skip(text[pos..])
  {
    p := pos;
    while At(text, p) != '\0' && At(text, p) <= ' '
      invariant pos <= p <= |text| && Skip(text[p..]) == Skip(text[pos..])
      decreases |text| - p
    {
      assert text[p..][1..] == text[p + 1..];
      p := p + 1;
    }
  }

  /** Reads digits on top of the number `n0` that the digits `before` denote. */
  method ReadDigits(text: string, pos: nat, n0: nat, ghost before: string) returns (p: nat, n: nat)
    requires pos <= |text| && Grammar.AllDigits(before) && n0 == Decimal(before)
    ensures pos <= p <= |text| && text[pos..p] == Digits(text[pos..])
    ensures text[pos..][|Digits(text[pos..])|..] == text[p..]
    ensures n == Decimal(before + Digits(text[pos..])) && (before == "" ==> n == Decimal(Digits(text[pos..])))
  {
    hide Decimal, Digits;
    p, n := pos, n0;
    assert before + text[pos..p] == before;
    assert text[pos..p] + Digits(text[p..]) == Digits(text[p..]);
    while IsDigit(At(text, p))
      invariant pos <= p <= |text| && Grammar.AllDigits(before + text[pos..p])
      invariant n == Decimal(before + text[pos..p]) && Digits(text[pos..]) == text[pos..p] + Digits(text[p..])
      decreases |text| - p
    {
      MoreDigits(text, pos, p, before);
      ShiftDigit(text, pos, p);
      n := n * 10 + DigitValue(text[p]);
      p := p + 1;
    }
    NoDigits(text[p..]);
    assert text[pos..p] + "" == text[pos..p];
    assert before == "" ==> before + Digits(text[pos..]) == Digits(text[pos..]);
  }

  lemma NoDigits(s: string)
    requires !IsDigit(Head(s))
    ensures Digits(s) == ""
  {
  }

  lemma MoreDigits(text: string, pos: nat, p: nat, before: string)
    requires pos <= p < |text| && Grammar.AllDigits(before + text[pos..p]) && IsDigit(text[p])
    ensures Grammar.AllDigits(before + text[pos..p + 1])
    ensures Decimal(before + text[pos..p + 1]) == 10 * Decimal(before + text[pos..p]) + DigitValue(text[p])
  {
    hide Decimal;
    var d := before + text[pos..p];
    assert before + text[pos..p + 1] == d + [text[p]];
    DecimalAppend(d, text[p]);
  }

  lemma ShiftDigit(text: string, pos: nat, p: nat)
    requires pos <= p < |text| && IsDigit(text[p])
    ensures text[pos..p] + Digits(text[p..]) == text[pos..p + 1] + Digits(text[p + 1..])
  {
    hide Digits;
    FirstDigit(text, p);
    assert text[pos..p + 1] == text[pos..p] + [text[p]];
  }

  lemma FirstDigit(text: string, p: nat)
    requires p < |text| && IsDigit(text[p])
    ensures Digits(text[p..]) == [text[p]] + Digits(text[p + 1..])
  {
    assert text[p..][1..] == text[p + 1..];
  }

  lemma DecimalAppend(d: string, c: char)
    requires Grammar.AllDigits(d) && IsDigit(c)
    ensures Grammar.AllDigits(d + [c]) && Decimal(d + [c]) == 10 * Decimal(d) + DigitValue(c)
  {
    assert (d + [c])[..|d|] == d;
  }

  /** `parse_number`; `valuedouble` is kept as a decimal. */
  method ParseNumber(text: string, pos: nat) returns (num: nat, mantissa: int, exponent: int)
    requires pos <= |text| && (At(text, pos) == '-' || IsDigit(At(text, pos)))
    ensures num <= |text| && Parser.ParseNumber(text[pos..]) == Parser.Ok(Number(mantissa, exponent), text[num..])
  {
    hide Parser.ParseWhole, Parser.ParseFraction, Parser.ParseExponent, Decimal;
    var sign := false;
    num := pos;
    if At(text, num) == '-' {
      Rest(text, pos);
      sign := true;
      num := num + 1;
    }
    var n, scale, subscale;
    ghost var whole, fraction;
    num, n, whole := ReadWhole(text, num);
    num, n, scale, fraction := ReadFraction(text, num, n, whole);
    num, subscale := ReadExponent(text, num);
    mantissa, exponent := n, scale + subscale;
    if sign {
      mantissa := -mantissa;
    }
  }

  method ReadWhole(text: string, pos: nat) returns (num: nat, n: nat, ghost whole: string)
    requires pos <= |text|
    ensures num <= |text| && Parser.ParseWhole(text[pos..]) == (whole, text[num..]) && n == Decimal(whole)
  {
    hide Digits, Decimal;
    Rest(text, pos);
    num := pos;
    if At(text, num) == '0' {
      num := num + 1;
    }
    n, whole := 0, "";
    NoNumber();
    assert text[num..][0..] == text[num..];
    if '1' <= At(text, num) <= '9' {
      whole := Digits(text[num..]);
      num, n := ReadDigits(text, num, 0, "");
    } else if At(text, num) != '0' {
      NoDigits(text[num..]);
    }
  }

  lemma Rest(text: string, pos: nat)
    requires pos <= |text|
    ensures pos < |text| ==> text[pos..][1..] == text[pos + 1..]
    ensures pos + 1 < |text| ==> text[pos..][2..] == text[pos + 2..] && text[pos + 1..][1..] == text[pos + 2..]
  {
  }

  lemma NoNumber()
    ensures Decimal("") == 0
  {
  }

  method ReadFraction(text: string, pos: nat, n0: nat, ghost whole: string)
    returns (num: nat, n: nat, scale: int, ghost fraction: string)
    requires pos <= |text| && Grammar.AllDigits(whole) && n0 == Decimal(whole)
    ensures num <= |text| && Parser.ParseFraction(text[pos..]) == (fraction, text[num..])
    ensures n == Decimal(whole + fraction) && scale == -|fraction|
  {
    num, n, scale, fraction := pos, n0, 0, "";
    assert whole + "" == whole;
    if At(text, num) == '.' && IsDigit(Head(text[num + 1..])) {
      num := num + 1;
      fraction := Digits(text[num..]);
      var start := num;
      num, n := ReadDigits(text, num, n, whole);
      assert text[pos..][1..] == text[pos + 1..];
      assert text[pos..][1 + |fraction|..] == text[pos + 1..][|fraction|..];
      scale := start - num;
    }
  }

  method ReadExponent(text: string, pos: nat) returns (num: nat, exponent: int)
    requires pos <= |text|
    ensures num <= |text| && Parser.ParseExponent(text[pos..]) == (exponent, text[num..])
  {
    hide Digits, Decimal;
    Rest(text, pos);
    num := pos;
    var subscale: int, signsubscale: int := 0, 1;
    if At(text, num) == 'e' || At(text, num) == 'E' {
      num := num + 1;
      if At(text, num) == '+' {
        num := num + 1;
      } else if At(text, num) == '-' {
        signsubscale := -1;
        num := num + 1;
      }
      NoNumber();
      num, subscale := ReadDigits(text, num, 0, "");
    }
    exponent := subscale * signsubscale;
  }
}
