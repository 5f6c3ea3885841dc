/**
  NUL-terminated text. A byte is a `char`; a pointer into a text is the suffix that starts there, and reading
  at the end of the suffix gives the terminator.
 */
module CString {

  function Head(s: string): char {
    if s == "" then '\0' else s[0]
  }

  /** The byte at a position; at the end of the text it is the terminator. */
  function At(text: string, p: nat): char
    requires p <= |text|
  {
    Head(text[p..])
  }

  predicate IsDigit(c: char) {
    '0' <= c <= '9'
  }

  /** `skip`: jump over the bytes 1 to 32. */
  function Skip(s: string): (r: string)
    ensures |r| <= |s|
    ensures Head(r) == '\0' || Head(r) > ' '
  {
    if Head(s) == '\0' || Head(s) > ' ' then s else Skip(s[1..])
  }

  /** A byte that is jumped over. */
  predicate Skipped(c: char) {
    '\0' < c <= ' '
  }

  predicate AllSkipped(ws: string) {
    forall i :: 0 <= i < |ws| ==> Skipped(ws[i])
  }

  /** What is left starts behind the longest run of bytes 1 to 32. */
  lemma {:induction false} SkipDrops(s: string)
    ensures var n := |s| - |Skip(s)|;
      && 0 <= n <= |s| && Skip(s) == s[n..] && AllSkipped(s[..n])
      && (forall i :: 0 <= i < n ==> 1 <= s[i] as int <= 32) && (n < |s| ==> !(1 <= s[n] as int <= 32))
  {
    if s != "" && Skipped(s[0]) {
      SkipDrops(s[1..]);
      var n := |s[1..]| - |Skip(s[1..])|;
      assert s[1..][n..] == s[n + 1..] && s[..n + 1] == [s[0]] + s[1..][..n];
    }
  }

  /** The longest prefix of digits. */
  function Digits(s: string): (d: string)
    ensures d <= s
    ensures forall i :: 0 <= i < |d| ==> IsDigit(d[i])
    ensures !IsDigit(Head(s[|d|..]))
  {
    if IsDigit(Head(s)) then
      var d := Digits(s[1..]);
      assert s[|d| + 1..] == s[1..][|d|..];
      [s[0]] + d
    else ""
  }

  function DigitValue(c: char): (d: nat)
    ensures d < 10
  {
    if IsDigit(c) then c as int - '0' as int else 0
  }

  /** The number a string of digits denotes. */
  function Decimal(d: string): nat {
    if d == "" then 0 else 10 * Decimal(d[..|d| - 1]) + DigitValue(d[|d| - 1])
  }

  /** `%d` for a number that is not negative. */
  function Numeral(n: nat): (d: string)
    ensures d != "" && forall i :: 0 <= i < |d| ==> IsDigit(d[i])
  {
    if n < 10 then [('0' as int + n) as char] else Numeral(n / 10) + [('0' as int + n % 10) as char]
  }

  /** `%d` */
  function Signed(n: int): string {
    if n < 0 then "-" + Numeral(-n) else Numeral(n)
  }

  /** A 32-bit number takes at most 11 bytes. */
  lemma SignedLength(n: int)
    requires -0x8000_0000 <= n < 0x8000_0000
    ensures 0 < |Signed(n)| <= 11
  {
    NumeralLength(if n < 0 then -n else n, 10, 10_000_000_000);
  }

  lemma {:induction false} NumeralLength(n: nat, k: nat, limit: nat)
    requires k > 0 && n < limit && limit == Power10(k)
    ensures |Numeral(n)| <= k
  {
    if n >= 10 {
      NumeralLength(n / 10, k - 1, limit / 10);
    }
  }

  function Power10(k: nat): nat {
    if k == 0 then 1 else 10 * Power10(k - 1)
  }

  lemma {:induction false} NumeralDecimal(n: nat)
    ensures Decimal(Numeral(n)) == n
    ensures Numeral(n)[0] == '0' <==> n == 0
  {
    if n < 10 {
      var d := Numeral(n);
      assert d[..|d| - 1] == "";
    } else {
      NumeralDecimal(n / 10);
      var d := Numeral(n);
      assert d[..|d| - 1] == Numeral(n / 10);
    }
  }

  /** A digit string is read to its end when what follows is no digit. */
  lemma {:induction false} DigitsStop(d: string, k: string)
    requires forall i :: 0 <= i < |d| ==> IsDigit(d[i])
    requires !IsDigit(Head(k))
    ensures Digits(d + k) == d && (d + k)[|d|..] == k
  {
    hide Digits;
    if d == "" {
      assert d + k == k;
      NoDigit(k);
    } else {
      DigitsStop(d[1..], k);
      assert d + k == [d[0]] + (d[1..] + k);
      OneDigit(d[0], d[1..] + k);
    }
  }

  lemma NoDigit(s: string)
    requires !IsDigit(Head(s))
    ensures Digits(s) == ""
  {
  }

  lemma OneDigit(c: char, s: string)
    requires IsDigit(c)
    ensures Digits([c] + s) == [c] + Digits(s)
  {
    assert ([c] + s)[1..] == s;
  }

  /** The blanks of RFC 8259, section 2. */
  predicate BlankChar(c: char) {
    c == ' ' || c == '\t' || c == '\r' || c == '\n'
  }

  predicate IsBlank(ws: string) {
    forall i :: 0 <= i < |ws| ==> BlankChar(ws[i])
  }

  lemma {:induction false} SkipBlank(ws: string, k: string)
    requires AllSkipped(ws)
    requires Head(k) == '\0' || Head(k) > ' '
    ensures Skip(ws + k) == k
  {
    if ws == "" {
      assert ws + k == k;
    } else {
      SkipBlank(ws[1..], k);
      assert (ws + k)[1..] == ws[1..] + k;
    }
  }
}
