/** What the escapes of string tokens stand for, told by their digits and by a decoder of UTF-8. */
module Escapes {
  import opened Grammar
  import opened Options
  import Parser
  import opened StringToken

  // ---------- Decoding UTF-8 ----------

  predicate InRange(c: char, from: int, to: int) {
    from <= c as int <= to
  }

  /** RFC 3629, section 4: the code point of a string that is one well-formed sequence of bytes. */
  function Decoded(s: string): Option<nat> {
    if |s| == 1 && InRange(s[0], 0x00, 0x7F) then
      Some(s[0] as int)
    else if |s| == 2 && InRange(s[0], 0xC2, 0xDF) && InRange(s[1], 0x80, 0xBF) then
      Some((s[0] as int - 0xC0) * 0x40 + (s[1] as int - 0x80))
    else if |s| == 3 && Start3(s[0], s[1]) && InRange(s[2], 0x80, 0xBF) then
      Some((s[0] as int - 0xE0) * 0x1000 + (s[1] as int - 0x80) * 0x40 + (s[2] as int - 0x80))
    else if |s| == 4 && Start4(s[0], s[1]) && InRange(s[2], 0x80, 0xBF) && InRange(s[3], 0x80, 0xBF) then
      Some((s[0] as int - 0xF0) * 0x40000 + (s[1] as int - 0x80) * 0x1000 + (s[2] as int - 0x80) * 0x40 +
           (s[3] as int - 0x80))
    else None
  }

  /** The first two bytes of three. */
  predicate Start3(a: char, b: char) {
    || (a as int == 0xE0 && InRange(b, 0xA0, 0xBF))
    || (InRange(a, 0xE1, 0xEC) && InRange(b, 0x80, 0xBF))
    || (a as int == 0xED && InRange(b, 0x80, 0x9F))
    || (InRange(a, 0xEE, 0xEF) && InRange(b, 0x80, 0xBF))
  }

  /** The first two bytes of four. */
  predicate Start4(a: char, b: char) {
    || (a as int == 0xF0 && InRange(b, 0x90, 0xBF))
    || (InRange(a, 0xF1, 0xF3) && InRange(b, 0x80, 0xBF))
    || (a as int == 0xF4 && InRange(b, 0x80, 0x8F))
  }

  // ---------- Hex digits ----------

  /** The byte is the hex digit of this value, in either case. */
  predicate DigitIs(c: char, d: nat) {
    d < 16 && (c == "0123456789ABCDEF"[d] || c == "0123456789abcdef"[d])
  }

  /** The four digits of a number below 2^16, each in either case. */
  predicate Spells(h: string, n: nat) {
    && |h| == 4 && n < 0x10000
    && DigitIs(h[0], n / 0x1000) && DigitIs(h[1], n / 0x100 % 0x10)
    && DigitIs(h[2], n / 0x10 % 0x10) && DigitIs(h[3], n % 0x10)
  }

  lemma DigitValue(c: char, d: nat)
    requires DigitIs(c, d)
    ensures IsHex(c) && HexDigit(c) == d
  {
  }

  lemma SpelledValue(h: string, n: nat)
    requires Spells(h, n)
    ensures IsHex4(h) && Hex4(h) == n
  {
    DigitValue(h[0], n / 0x1000);
    DigitValue(h[1], n / 0x100 % 0x10);
    DigitValue(h[2], n / 0x10 % 0x10);
    DigitValue(h[3], n % 0x10);
    DigitsAdd(n);
    hide DigitIs, IsHex, HexDigit;
  }

  lemma DigitsAdd(n: nat)
    ensures ((n / 0x1000 * 16 + n / 0x100 % 0x10) * 16 + n / 0x10 % 0x10) * 16 + n % 0x10 == n
  {
    DivideHex(n);
    var a := n / 0x10;
    var b := a / 0x10;
    assert n == a * 16 + n % 0x10 && a == b * 16 + a % 0x10 && b == b / 0x10 * 16 + b % 0x10;
  }

  lemma DivideHex(n: nat)
    ensures n / 0x100 == n / 0x10 / 0x10 && n / 0x1000 == n / 0x100 / 0x10
  {
  }

  lemma ValueSpelled(h: string)
    requires IsHex4(h)
    ensures Spells(h, Hex4(h))
  {
    HasPlace(h[0]);
    HasPlace(h[1]);
    HasPlace(h[2]);
    HasPlace(h[3]);
    Quotients(HexDigit(h[0]), HexDigit(h[1]), HexDigit(h[2]), HexDigit(h[3]));
    hide DigitIs, IsHex, HexDigit;
  }

  lemma HasPlace(c: char)
    requires IsHex(c)
    ensures DigitIs(c, HexDigit(c))
  {
  }

  lemma Quotients(a: nat, b: nat, c: nat, d: nat)
    requires a < 16 && b < 16 && c < 16 && d < 16
    ensures var n := ((a * 16 + b) * 16 + c) * 16 + d;
      n < 0x10000 && n / 0x1000 == a && n / 0x100 % 0x10 == b && n / 0x10 % 0x10 == c && n % 0x10 == d
  {
    var n := ((a * 16 + b) * 16 + c) * 16 + d;
    assert n / 0x10 == (a * 16 + b) * 16 + c;
    assert n / 0x100 == a * 16 + b;
  }

  /** A byte is a hex digit exactly if it has a place among the digits. */
  lemma HexDigits(c: char)
    ensures IsHex(c) <==> exists d: nat :: DigitIs(c, d)
  {
    if IsHex(c) {
      HasPlace(c);
    } else if d: nat :| DigitIs(c, d) {
      DigitValue(c, d);
    }
  }

  // ---------- What a code point is decoded to ----------

  lemma DecodedUtf8(c: nat)
    requires c < 0x110000 && !(0xD800 <= c < 0xE000)
    ensures Decoded(Utf8(c)) == Some(c)
  {
    if 0x800 <= c < 0x10000 {
      DecodedThree(c);
    } else if c >= 0x10000 {
      DecodedFour(c);
    }
  }

  lemma DecodedThree(c: nat)
    requires 0x800 <= c < 0x10000 && !(0xD800 <= c < 0xE000)
    ensures Decoded(Utf8(c)) == Some(c)
  {
    var a, b := c / 0x1000, c / 0x40 % 0x40;
    assert c == a * 0x1000 + b * 0x40 + c % 0x40;
  }

  lemma DecodedFour(c: nat)
    requires 0x10000 <= c < 0x110000
    ensures Decoded(Utf8(c)) == Some(c)
  {
    var a, b, d, e := c / 0x40000, c / 0x1000 % 0x40, c / 0x40 % 0x40, c % 0x40;
    FourParts(c);
    FourBytes(a, b, d, e);
  }

  lemma FourParts(c: nat)
    requires 0x10000 <= c < 0x110000
    ensures var a, b, d, e := c / 0x40000, c / 0x1000 % 0x40, c / 0x40 % 0x40, c % 0x40;
      && c == a * 0x40000 + b * 0x1000 + d * 0x40 + e && a <= 4 && (a == 0 ==> b >= 0x10) && (a == 4 ==> b < 0x10)
      && Utf8(c) == [(0xF0 + a) as char, (0x80 + b) as char, (0x80 + d) as char, (0x80 + e) as char]
  {
    DivideSix(c);
    var x := c / 0x40;
    var y := x / 0x40;
    var z := y / 0x40;
    assert c == x * 0x40 + c % 0x40 && x == y * 0x40 + x % 0x40 && y == z * 0x40 + y % 0x40;
    FourUtf8(c);
    hide Utf8;
  }

  lemma DivideSix(n: nat)
    ensures n / 0x1000 == n / 0x40 / 0x40 && n / 0x40000 == n / 0x1000 / 0x40
  {
  }

  lemma FourUtf8(c: nat)
    requires 0x10000 <= c < 0x110000
    ensures Utf8(c) == [(0xF0 + c / 0x40000) as char, (0x80 + c / 0x1000 % 0x40) as char,
                        (0x80 + c / 0x40 % 0x40) as char, (0x80 + c % 0x40) as char]
  {
  }

  lemma FourBytes(a: nat, b: nat, d: nat, e: nat)
    requires a <= 4 && b < 0x40 && d < 0x40 && e < 0x40 && (a == 0 ==> b >= 0x10) && (a == 4 ==> b < 0x10)
    ensures Decoded([(0xF0 + a) as char, (0x80 + b) as char, (0x80 + d) as char, (0x80 + e) as char]) ==
      Some(a * 0x40000 + b * 0x1000 + d * 0x40 + e)
  {
  }

  /** A code point as the RFC spells it: one escape, or two that are a surrogate pair; digits in either case. */
  predicate Escaping(us: seq<Unit>, c: nat) {
    if c < 0x10000 then
      0 < c && !(0xD800 <= c < 0xE000) && |us| == 1 && us[0].Code? && Spells(us[0].hex, c)
    else
      && c < 0x110000 && |us| == 2 && us[0].Code? && us[1].Code?
      && Spells(us[0].hex, 0xD800 + (c - 0x10000) / 0x400) && Spells(us[1].hex, 0xDC00 + (c - 0x10000) % 0x400)
  }

  /** Every code point but zero, however its escapes are spelled, is decoded to bytes that are its UTF-8 form. */
  lemma EscapeDecodes(us: seq<Unit>, c: nat, more: seq<Unit>)
    requires Escaping(us, c)
    ensures Decoded(Meaning(us)) == Some(c) && Meaning(us + more) == Meaning(us) + Meaning(more)
  {
    hide Decoded, Utf8, Spells, Hex4;
    DecodedUtf8(c);
    if c < 0x10000 {
      SpelledValue(us[0].hex, c);
      OneCode(us, more);
    } else {
      var x := c - 0x10000;
      SpelledValue(us[0].hex, 0xD800 + x / 0x400);
      SpelledValue(us[1].hex, 0xDC00 + x % 0x400);
      PairCode(us, more);
    }
  }

  lemma OneCode(us: seq<Unit>, more: seq<Unit>)
    requires |us| == 1 && us[0].Code? && Hex4(us[0].hex) != 0 && !IsHigh(Hex4(us[0].hex)) && !IsLow(Hex4(us[0].hex))
    ensures Meaning(us) == Utf8(Hex4(us[0].hex)) && Meaning(us + more) == Meaning(us) + Meaning(more)
  {
    hide Utf8, Hex4;
    assert us[1..] == [] && (us + more)[1..] == more;
  }

  lemma PairCode(us: seq<Unit>, more: seq<Unit>)
    requires |us| == 2 && us[0].Code? && us[1].Code? && IsHigh(Hex4(us[0].hex)) && IsLow(Hex4(us[1].hex))
    ensures Meaning(us) == Utf8(FromPair(Hex4(us[0].hex), Hex4(us[1].hex)))
    ensures Meaning(us + more) == Meaning(us) + Meaning(more)
  {
    hide Utf8, Hex4, FromPair;
    assert us[2..] == [] && (us + more)[2..] == more;
  }

  /** The escapes that stand for nothing: zero, a low surrogate, and four bytes that are not all hex digits. */
  lemma DroppedEscape(h: string, n: nat, i: nat, more: seq<Unit>)
    requires i < |h| == 4
    requires (Spells(h, n) && (n == 0 || 0xDC00 <= n < 0xE000)) || forall d: nat :: !DigitIs(h[i], d)
    ensures Meaning([Code(h)] + more) == Meaning(more)
  {
    hide DigitIs, HexDigit, IsHex;
    if Spells(h, n) {
      SpelledValue(h, n);
    }
    HexDigits(h[i]);
    FirstCode(h, more);
  }

  lemma FirstCode(h: string, more: seq<Unit>)
    ensures Hex4(h) == 0 || IsLow(Hex4(h)) ==> Meaning([Code(h)] + more) == Meaning(more)
    ensures IsHigh(Hex4(h)) && (more == [] || !more[0].Code?) ==> Meaning([Code(h)] + more) == Meaning(more)
    ensures IsHigh(Hex4(h)) && more != [] && more[0].Code? && !IsLow(Hex4(more[0].hex)) ==>
      Meaning([Code(h)] + more) == Meaning(more[1..])
  {
    hide Hex4;
    var us := [Code(h)] + more;
    assert us[1..] == more;
    if more != [] {
      assert us[2..] == more[1..] && us[1] == more[0];
      assert "" + Meaning(more[1..]) == Meaning(more[1..]);
    }
  }

  /** A high surrogate without its low half stands for nothing, and takes a `\u` escape behind it along. */
  lemma LoneHigh(h: string, n: nat, more: seq<Unit>)
    requires Spells(h, n) && 0xD800 <= n < 0xDC00
    requires more != [] && more[0].Code? ==> forall m :: 0xDC00 <= m < 0xE000 ==> !Spells(more[0].hex, m)
    ensures Meaning([Code(h)] + more) == Meaning(if more != [] && more[0].Code? then more[1..] else more)
  {
    hide Spells, Hex4, Meaning;
    SpelledValue(h, n);
    if more != [] && more[0].Code? && IsHex4(more[0].hex) {
      ValueSpelled(more[0].hex);
    }
    if more != [] && more[0].Code? && !IsHex4(more[0].hex) {
      NoValue(more[0].hex);
    }
    FirstCode(h, more);
  }

  lemma NoValue(h: string)
    requires !IsHex4(h)
    ensures Hex4(h) == 0
  {
  }

  /** As a string token of a text such an escape is parsed to bytes that are the UTF-8 form of its code point. */
  lemma EscapeParsed(us: seq<Unit>, c: nat, k: string)
    requires Escaping(us, c)
    ensures var r := Parser.ParseValue("\"" + StringToken.Emit(us, "\"" + k));
      r.Ok? && r.rest == k && r.value.String? && Decoded(r.value.text) == Some(c)
  {
    hide *;
    EscapeDecodes(us, c, []);
    EscapingConforms(us, c);
    ConformingAccepted(us);
    TokenText(us, k);
    Parser.StringFirst(us, k);
  }

  lemma TokenText(us: seq<Unit>, k: string)
    ensures EmitString(us, k) == "\"" + StringToken.Emit(us, "\"" + k)
  {
  }

  lemma EscapingConforms(us: seq<Unit>, c: nat)
    requires Escaping(us, c)
    ensures AllConform(us)
  {
    hide Spells;
    if c < 0x10000 {
      SpelledValue(us[0].hex, c);
    } else {
      SpelledValue(us[0].hex, 0xD800 + (c - 0x10000) / 0x400);
      SpelledValue(us[1].hex, 0xDC00 + (c - 0x10000) % 0x400);
    }
  }

  // ---------- Other units ----------

  /** The byte that a two-byte escape of RFC 8259, section 7, stands for. */
  predicate RfcEscape(c: char, code: int) {
    || (c == '\"' && code == 0x22) || (c == '\\' && code == 0x5C) || (c == '/' && code == 0x2F)
    || (c == 'b' && code == 0x08) || (c == 'f' && code == 0x0C) || (c == 'n' && code == 0x0A)
    || (c == 'r' && code == 0x0D) || (c == 't' && code == 0x09)
  }

  /** The eight escapes of the RFC stand for their bytes, any other for its own byte, and so does a plain byte. */
  lemma OtherUnits(c: char, code: int, more: seq<Unit>)
    ensures RfcEscape(c, code) ==> 0 <= code < 0x80 && Meaning([Escape(c)] + more) == [code as char] + Meaning(more)
    ensures c != 'b' && c != 'f' && c != 'n' && c != 'r' && c != 't' ==>
      Meaning([Escape(c)] + more) == [c] + Meaning(more)
    ensures Meaning([Plain(c)] + more) == [c] + Meaning(more)
  {
    assert ([Escape(c)] + more)[1..] == more && ([Plain(c)] + more)[1..] == more;
  }

  // ---------- Writing ----------

  /** How each byte is printed: with its letter, as `\u00` and two digits in lower case, or as it is. */
  lemma PrintedByte(c: char, code: int)
    requires c as int == code > 0
    ensures UnitText(Escaped(c)) ==
      if code == 0x22 then ['\\', '\"'] else if code == 0x5C then ['\\', '\\']
      else if code == 0x08 then ['\\', 'b'] else if code == 0x0C then ['\\', 'f'] else if code == 0x0A then ['\\', 'n']
      else if code == 0x0D then ['\\', 'r'] else if code == 0x09 then ['\\', 't']
      else if code < 0x20 then ['\\', 'u', '0', '0', "01"[code / 16], "0123456789abcdef"[code % 16]]
      else [c]
  {
    if code < 0x20 {
      assert code / 16 == 0 || code / 16 == 1;
    }
  }
}
