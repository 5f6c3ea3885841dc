/** What numbers are worth, told digit by digit. */
module Numbers {
  import opened CString
  import opened Grammar
  import opened Json
  import opened Parser

  /** All bytes are decimal digits. */
  predicate AllDecimal(d: string) {
    forall i :: 0 <= i < |d| ==> '0' <= d[i] <= '9'
  }

  /** The sum of the digits, each times the power of ten of its place. */
  function Worth(d: string): int {
    if d == "" then 0 else (d[0] as int - '0' as int) * TenTo(|d| - 1) + Worth(d[1..])
  }

  function TenTo(n: nat): int {
    if n == 0 then 1 else 10 * TenTo(n - 1)
  }

  lemma {:induction false} WorthMore(d: string, c: char)
    ensures Worth(d + [c]) == 10 * Worth(d) + (c as int - '0' as int)
  {
    if d == "" {
      assert (d + [c])[1..] == "";
      assert (c as int - '0' as int) * 1 == c as int - '0' as int;
    } else {
      WorthMore(d[1..], c);
      assert (d + [c])[1..] == d[1..] + [c] && |d + [c]| - 1 == |d|;
      Shift(d[0] as int - '0' as int, TenTo(|d| - 1));
    }
  }

  lemma Shift(x: int, y: int)
    ensures x * (10 * y) == 10 * (x * y)
  {
  }

  lemma {:induction false} WorthDecimal(d: string)
    requires AllDecimal(d)
    ensures Decimal(d) == Worth(d)
  {
    if d != "" {
      var n := |d| - 1;
      WorthDecimal(d[..n]);
      WorthMore(d[..n], d[n]);
      assert d[..n] + [d[n]] == d;
    }
  }

  /** The digits that are printed for a number are worth it, and they start with a zero only for zero. */
  lemma NumeralWorth(n: nat)
    ensures AllDecimal(Numeral(n)) && Worth(Numeral(n)) == n && (Numeral(n)[0] == '0' <==> n == 0)
    ensures Signed(n) == Numeral(n) && (n > 0 ==> Signed(0 - n) == ['-'] + Numeral(n))
  {
    NumeralDecimal(n);
    WorthDecimal(Numeral(n));
    assert AllDecimal(Numeral(n)) by {
      assert forall i :: 0 <= i < |Numeral(n)| ==> IsDigit(Numeral(n)[i]);
    }
  }

  /** The text of a number: a minus, digits, a point and digits, and an exponent, each but the first digits if present. */
  function NumberText(minus: bool, whole: string, fraction: string, mark: string, sign: string, exponent: string): string {
    (if minus then "-" else "") + whole + (if fraction == "" then "" else "." + fraction) + (mark + sign + exponent)
  }

  /** RFC 8259, section 6 */
  predicate Legal(whole: string, fraction: string, mark: string, sign: string, exponent: string) {
    && AllDecimal(whole + fraction + exponent) && whole != "" && (whole[0] == '0' ==> |whole| == 1)
    && (if mark == "" then sign == "" && exponent == ""
        else (mark == "e" || mark == "E") && (sign == "" || sign == "+" || sign == "-") && exponent != "")
  }

  /** No byte that follows can belong to the number. */
  predicate Apart(k: string) {
    k == "" || !('0' <= k[0] <= '9' || k[0] == '.' || k[0] == 'e' || k[0] == 'E' || k[0] == '+' || k[0] == '-')
  }

  /**
    Every number of the RFC is read as its digits, those before and behind the point taken as one number, times ten to
    the power of the written exponent less the number of digits behind the point.
   */
  lemma NumberRead(minus: bool, whole: string, fraction: string, mark: string, sign: string, exponent: string, k: string)
    requires Legal(whole, fraction, mark, sign, exponent) && Apart(k)
    ensures var m, e := Worth(whole + fraction), Worth(exponent);
      ParseValue(NumberText(minus, whole, fraction, mark, sign, exponent) + k) ==
      Ok(Number(if minus then -m else m, (if sign == "-" then -e else e) - |fraction|), k)
  {
    hide *;
    var f := FigureFor(minus, whole, fraction, mark, sign, exponent);
    LegalFigure(minus, whole, fraction, mark, sign, exponent);
    FigureSpelled(minus, whole, fraction, mark, sign, exponent, k);
    WorthDecimal(whole + fraction);
    WorthDecimal(exponent);
    ApartEnds(f, k);
    ReadFigure(f, k);
    NumberFirst(EmitFigure(f, k));
    FigureWorth(minus, whole, fraction, mark, sign, exponent);
  }

  lemma FigureWorth(minus: bool, whole: string, fraction: string, mark: string, sign: string, exponent: string)
    ensures var m: int, e: int := Decimal(whole + fraction), Decimal(exponent);
      FigureValue(FigureFor(minus, whole, fraction, mark, sign, exponent)) ==
      Number(if minus then -m else m, (if sign == "-" then -e else e) - |fraction|)
  {
  }

  function FigureFor(minus: bool, whole: string, fraction: string, mark: string, sign: string, exponent: string): Figure {
    Parts(minus, whole, fraction, if mark == "" then NO_E else mark[0], sign, exponent)
  }

  lemma LegalFigure(minus: bool, whole: string, fraction: string, mark: string, sign: string, exponent: string)
    requires Legal(whole, fraction, mark, sign, exponent)
    ensures LenientFigure(FigureFor(minus, whole, fraction, mark, sign, exponent))
    ensures AllDecimal(whole + fraction) && AllDecimal(exponent)
  {
    var all := whole + fraction + exponent;
    DecimalPart("", whole, fraction + exponent, all);
    DecimalPart(whole, fraction, exponent, all);
    DecimalPart(whole + fraction, exponent, "", all);
    DecimalPart("", whole + fraction, exponent, all);
  }

  lemma DecimalPart(a: string, b: string, c: string, all: string)
    requires AllDecimal(all) && all == a + b + c
    ensures AllDecimal(b) && AllDigits(b)
  {
    forall i | 0 <= i < |b|
      ensures '0' <= b[i] <= '9'
    {
      assert b[i] == all[|a| + i];
    }
  }

  lemma FigureSpelled(minus: bool, whole: string, fraction: string, mark: string, sign: string, exponent: string, k: string)
    requires Legal(whole, fraction, mark, sign, exponent)
    ensures NumberText(minus, whole, fraction, mark, sign, exponent) + k ==
      EmitFigure(FigureFor(minus, whole, fraction, mark, sign, exponent), k)
  {
    hide EmitFigure;
    var a, b := if minus then "-" else "", if fraction == "" then "" else "." + fraction;
    var f := FigureFor(minus, whole, fraction, mark, sign, exponent);
    PartsSpelled(f, k);
    ExponentSpelled(mark, sign, exponent);
    assert NumberText(minus, whole, fraction, mark, sign, exponent) == a + whole + b + (mark + sign + exponent);
    FiveParts(a, whole, b, ExponentText(f), k);
  }

  lemma PartsSpelled(f: Figure, k: string)
    ensures EmitFigure(f, k) == (if f.minus then "-" else "") + (f.whole + (FractionText(f) + (ExponentText(f) + k)))
  {
  }

  lemma ExponentSpelled(mark: string, sign: string, exponent: string)
    requires if mark == "" then sign == "" && exponent == "" else mark == "e" || mark == "E"
    ensures mark + sign + exponent == if mark == "" then "" else [mark[0]] + (sign + exponent)
  {
  }

  lemma FiveParts(a: string, b: string, c: string, d: string, k: string)
    ensures a + b + c + d + k == a + (b + (c + (d + k)))
  {
  }

  lemma ApartEnds(f: Figure, k: string)
    requires Apart(k)
    ensures FigureEnds(f, k)
  {
  }
}
