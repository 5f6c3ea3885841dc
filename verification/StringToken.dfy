/** JSON string tokens: their units, what these mean, and the escaped form of a byte string. */
module StringToken {
  import opened CString

  /** One unit of a string token: a plain byte, a two-byte escape, or `\u` with four hex digits. */
  datatype Unit = Plain(c: char) | Escape(c: char) | Code(hex: string)

  predicate IsHex(c: char) {
    IsDigit(c) || 'A' <= c <= 'F' || 'a' <= c <= 'f'
  }

  function HexDigit(c: char): (d: nat)
    requires IsHex(c)
    ensures d < 16
  {
    if IsDigit(c) then c as int - '0' as int
    else if c <= 'F' then 10 + c as int - 'A' as int
    else 10 + c as int - 'a' as int
  }

  predicate IsHex4(h: string) {
    |h| == 4 && forall i :: 0 <= i < 4 ==> IsHex(h[i])
  }

  /** `parse_hex4`: four bytes that are no hex digits denote zero. */
  function Hex4(h: string): (n: nat)
    ensures n < 0x10000
  {
    if IsHex4(h) then ((HexDigit(h[0]) * 16 + HexDigit(h[1])) * 16 + HexDigit(h[2])) * 16 + HexDigit(h[3]) else 0
  }

  /** A byte that neither ends a token nor starts an escape. */
  predicate Ordinary(c: char) {
    c != '\"' && c != '\\' && c != '\0'
  }

  predicate Ordinary4(h: string) {
    |h| == 4 && forall i :: 0 <= i < 4 ==> Ordinary(h[i])
  }

  /** What the parser accepts. */
  predicate WellFormed(u: Unit) {
    match u
    case Plain(c) => Ordinary(c)
    case Escape(c) => c != 'u' && c != '\0'
    case Code(h) => Ordinary4(h)
  }

  predicate AllWellFormed(us: seq<Unit>) {
    forall i :: 0 <= i < |us| ==> WellFormed(us[i])
  }

  /** RFC 8259, section 7, byte by byte. */
  predicate Conforms(u: Unit) {
    match u
    case Plain(c) => c >= ' ' && c != '\"' && c != '\\'
    case Escape(c) =>
      c == '\"' || c == '\\' || c == '/' || c == 'b' || c == 'f' || c == 'n' || c == 'r' || c == 't'
    case Code(h) => IsHex4(h)
  }

  predicate AllConform(us: seq<Unit>) {
    forall i :: 0 <= i < |us| ==> Conforms(us[i])
  }

  lemma ConformingAccepted(us: seq<Unit>)
    requires AllConform(us)
    ensures AllWellFormed(us)
  {
    forall i | 0 <= i < |us|
      ensures WellFormed(us[i])
    {
      assert Conforms(us[i]);
      if us[i].Code? {
        var h := us[i].hex;
        assert IsHex(h[0]) && IsHex(h[1]) && IsHex(h[2]) && IsHex(h[3]);
      }
    }
  }

  function UnitText(u: Unit): (s: string)
    ensures s != ""
  {
    match u
    case Plain(c) => [c]
    case Escape(c) => ['\\', c]
    case Code(h) => "\\u" + h
  }

  /** The text of the units, followed by `k`. */
  function Emit(us: seq<Unit>, k: string): string {
    if us == [] then k else UnitText(us[0]) + Emit(us[1..], k)
  }

  // ---------- Reading ----------

  /**
    What follows an opening quote: a token and the text behind its closing quote; a token that the end of the text
    cuts off, and that end; or an escape that the end of the text or a quote or backslash breaks off, on which the two
    scans of the code part.
   */
  datatype Lexed = Closed(units: seq<Unit>, rest: string) | Cut(units: seq<Unit>, rest: string) | Astray

  function Lex(s: string): (r: Lexed)
    ensures !r.Astray? ==> |r.rest| <= |s|
    ensures r.Closed? ==> |r.rest| < |s|
    ensures r.Cut? ==> Head(r.rest) == '\0'
  {
    if Head(s) == '\0' then Cut([], s)
    else if s[0] == '\"' then Closed([], s[1..])
    else if s[0] != '\\' then Before(Plain(s[0]), Lex(s[1..]))
    else if Head(s[1..]) == '\0' then Astray
    else if s[1] != 'u' then Before(Escape(s[1]), Lex(s[2..]))
    else if |s| >= 6 && Ordinary4(s[2..6]) then Before(Code(s[2..6]), Lex(s[6..]))
    else Astray
  }

  function Before(u: Unit, r: Lexed): Lexed {
    match r
    case Closed(us, rest) => Closed([u] + us, rest)
    case Cut(us, rest) => Cut([u] + us, rest)
    case Astray => Astray
  }

  /** What ends a token: its quote, or the end of the text. */
  function Ending(r: Lexed): string
    requires !r.Astray?
  {
    if r.Closed? then "\"" + r.rest else r.rest
  }

  /** Reading inverts writing, whatever follows the closing quote. */
  lemma {:induction false} LexEmit(us: seq<Unit>, k: string)
    requires AllWellFormed(us)
    ensures Lex(Emit(us, "\"" + k)) == Closed(us, k)
  {
    if us == [] {
      assert ("\"" + k)[1..] == k;
    } else {
      LexEmit(us[1..], k);
      LexUnit(us[0], Emit(us[1..], "\"" + k));
      assert us == [us[0]] + us[1..];
    }
  }

  /** A token that the end of the text cuts off is read in the same way. */
  lemma {:induction false} LexCut(us: seq<Unit>, k: string)
    requires AllWellFormed(us) && Head(k) == '\0'
    ensures Lex(Emit(us, k)) == Cut(us, k)
  {
    if us != [] {
      LexCut(us[1..], k);
      LexUnit(us[0], Emit(us[1..], k));
      assert us == [us[0]] + us[1..];
    }
  }

  lemma LexUnit(u: Unit, t: string)
    requires WellFormed(u)
    ensures Lex(UnitText(u) + t) == Before(u, Lex(t))
  {
    var s := UnitText(u) + t;
    assert s[|UnitText(u)|..] == t;
    if u.Code? {
      assert s[2..6] == u.hex;
    }
  }

  /** Writing inverts reading. */
  lemma {:induction false} EmitLex(s: string)
    requires !Lex(s).Astray?
    ensures var r := Lex(s); AllWellFormed(r.units) && s == Emit(r.units, Ending(r))
  {
    if Head(s) == '\0' || s[0] == '\"' {
      assert Head(s) != '\0' ==> s == "\"" + Lex(s).rest;
    } else {
      var (u, t) := FirstUnit(s);
      EmitLex(t);
      LexUnit(u, t);
      assert [u] + Lex(t).units == Lex(s).units;
      hide Lex, WellFormed, UnitText;
    }
  }

  /** The unit that a token starts with, and the text behind it. */
  function FirstUnit(s: string): (r: (Unit, string))
    requires !Lex(s).Astray? && Head(s) != '\0' && s[0] != '\"'
    ensures WellFormed(r.0) && s == UnitText(r.0) + r.1 && !Lex(r.1).Astray? && |r.1| < |s|
  {
    if s[0] != '\\' then (Plain(s[0]), s[1..])
    else if s[1] != 'u' then (Escape(s[1]), s[2..])
    else
      assert s == "\\u" + s[2..6] + s[6..];
      (Code(s[2..6]), s[6..])
  }

  // ---------- Meaning ----------

  predicate IsHigh(u: nat) { 0xD800 <= u <= 0xDBFF }

  predicate IsLow(u: nat) { 0xDC00 <= u <= 0xDFFF }

  /** The code point of a surrogate pair (RFC 2781, section 2.2). */
  function FromPair(high: nat, low: nat): (c: nat)
    requires IsHigh(high) && IsLow(low)
    ensures 0x10000 <= c < 0x110000
  {
    0x10000 + (high - 0xD800) * 0x400 + (low - 0xDC00)
  }

  /** The UTF-8 form of a code point (RFC 3629, section 3). */
  function Utf8(c: nat): (s: string)
    requires c < 0x110000
    ensures |s| == Utf8Length(c)
  {
    if c < 0x80 then [c as char]
    else if c < 0x800 then [(0xC0 + c / 0x40) as char, Continuation(c)]
    else if c < 0x10000 then [(0xE0 + c / 0x1000) as char, Continuation(c / 0x40), Continuation(c)]
    else [(0xF0 + c / 0x40000) as char, Continuation(c / 0x1000), Continuation(c / 0x40), Continuation(c)]
  }

  function Utf8Length(c: nat): nat {
    if c < 0x80 then 1 else if c < 0x800 then 2 else if c < 0x10000 then 3 else 4
  }

  function Continuation(c: nat): char {
    (0x80 + c % 0x40) as char
  }

  /** The byte an escape stands for; bytes without a special meaning stand for themselves. */
  function Unescape(c: char): char {
    match c
    case 'b' => '\U{08}'
    case 'f' => '\U{0C}'
    case 'n' => '\n'
    case 'r' => '\r'
    case 't' => '\t'
    case _ => c
  }

  /**
    The bytes a token stands for. A `\u` escape stands for the UTF-8 form of its code point, two that form a
    surrogate pair for that of the pair; zero, four bytes that are no hex digits, a low surrogate, and a high surrogate
    without its low half stand for nothing, the last together with a `\u` escape right behind it.
   */
  function Meaning(us: seq<Unit>): string {
    if us == [] then ""
    else
      match us[0]
      case Plain(c) => [c] + Meaning(us[1..])
      case Escape(c) => [Unescape(c)] + Meaning(us[1..])
      case Code(h) =>
        var u := Hex4(h);
        if u == 0 || IsLow(u) then Meaning(us[1..])
        else if !IsHigh(u) then Utf8(u) + Meaning(us[1..])
        else if |us| == 1 || !us[1].Code? then Meaning(us[1..])
        else
          var low := Hex4(us[1].hex);
          (if IsLow(low) then Utf8(FromPair(u, low)) else "") + Meaning(us[2..])
  }

  // ---------- Writing ----------

  function LowerHex(n: nat): char
    requires n < 16
  {
    "0123456789abcdef"[n]
  }

  /** How `print_string_ptr` writes one byte. */
  function Escaped(c: char): (u: Unit)
    ensures c != '\0' ==> Conforms(u)
  {
    if c == '\"' || c == '\\' then Escape(c)
    else if c == '\U{08}' then Escape('b')
    else if c == '\U{0C}' then Escape('f')
    else if c == '\n' then Escape('n')
    else if c == '\r' then Escape('r')
    else if c == '\t' then Escape('t')
    else if c < ' ' then
      var h := ['0', '0', LowerHex(c as int / 16), LowerHex(c as int % 16)];
      Code(h)
    else Plain(c)
  }

  function EscapedAll(s: string): (us: seq<Unit>)
    ensures |us| == |s| && forall i :: 0 <= i < |s| ==> us[i] == Escaped(s[i])
  {
    if s == "" then [] else [Escaped(s[0])] + EscapedAll(s[1..])
  }

  /** The printed form of a byte string. */
  function Quote(s: string): string {
    "\"" + Emit(EscapedAll(s), "\"")
  }

  lemma HexOfLowerHex(n: nat)
    requires n < 16
    ensures IsHex(LowerHex(n)) && HexDigit(LowerHex(n)) == n
  {
  }

  /** The four hex digits of an escaped control byte denote that byte. */
  lemma EscapedCode(c: char)
    requires c != '\0' && Escaped(c).Code?
    ensures Hex4(Escaped(c).hex) == c as int && Utf8(c as int) == [c]
  {
    HexOfLowerHex(c as int / 16);
    HexOfLowerHex(c as int % 16);
  }

  lemma MeaningOfEscapedByte(c: char, us: seq<Unit>)
    requires c != '\0'
    ensures Meaning([Escaped(c)] + us) == [c] + Meaning(us)
  {
    var all := [Escaped(c)] + us;
    assert all[1..] == us;
    if Escaped(c).Code? {
      EscapedCode(c);
    } else if Escaped(c).Escape? {
      assert Unescape(Escaped(c).c) == c;
    }
  }

  /** Every byte string without a NUL is read back from its escaped form. */
  lemma {:induction false} MeaningOfEscaped(s: string)
    requires '\0' !in s
    ensures AllConform(EscapedAll(s)) && Meaning(EscapedAll(s)) == s
  {
    if s != "" {
      MeaningOfEscaped(s[1..]);
      MeaningOfEscapedByte(s[0], EscapedAll(s[1..]));
      assert s == [s[0]] + s[1..];
    }
  }
}
