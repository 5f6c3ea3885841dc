/** What the parser of cJSON computes, on the text that starts at the parse position. */
module Parser {
  import opened CString
  import opened Json
  import opened Grammar
  import StringToken

  /**
    A value and the text behind it, or a failure. `Outside`: a string token with an escape that the end of the text or
    a quote or backslash breaks off, for which no result is modelled.
   */
  datatype Parsed = Ok(value: Json, rest: string) | Fail | Outside

  function ParseValue(s: string): (r: Parsed)
    ensures r.Ok? ==> |r.rest| < |s|
    decreases |s|, 2
  {
    if Head(s) == '[' then
      var t := Skip(s[1..]);
      if Head(t) == ']' then Ok(Array([]), t[1..]) else ParseElements([], s[1..])
    else if Head(s) == '{' then
      var t := Skip(s[1..]);
      if Head(t) == '}' then Ok(Object([]), t[1..]) else ParseMembers([], s[1..])
    else ParseAtom(s)
  }

  /** `cJSON_ParseWithOpts`; `requireEnd` asks for nothing but blanks behind the value. */
  function ParseText(s: string, requireEnd: bool): Parsed {
    match ParseValue(Skip(s))
    case Ok(v, rest) =>
      if !requireEnd then Ok(v, rest)
      else if Head(Skip(rest)) == '\0' then Ok(v, Skip(rest))
      else Fail
    case r => r
  }

  /** With `requireEnd` a text is accepted exactly if only bytes 1 to 32 stand between its value and its end or a NUL. */
  lemma WholeTextIff(s: string)
    ensures var r := ParseText(s, false);
      ParseText(s, true).Ok? <==> r.Ok? && exists n ::
        0 <= n <= |r.rest| && (forall i :: 0 <= i < n ==> 1 <= r.rest[i] as int <= 32) && Head(r.rest[n..]) == '\0'
    ensures ParseText(s, true).Ok? ==> ParseText(s, true).value == ParseText(s, false).value
  {
    hide ParseValue;
    if ParseText(s, false).Ok? {
      BlankTail(ParseText(s, false).rest);
    }
  }

  lemma BlankTail(s: string)
    ensures Head(Skip(s)) == '\0' <==> exists n ::
      0 <= n <= |s| && (forall i :: 0 <= i < n ==> 1 <= s[i] as int <= 32) && Head(s[n..]) == '\0'
  {
    var r := Skip(s);
    var m := |s| - |r|;
    SkipDrops(s);
    assert s[m..] == r;
    if n :| 0 <= n <= |s| && (forall i :: 0 <= i < n ==> 1 <= s[i] as int <= 32) && Head(s[n..]) == '\0' {
      assert Head(r) == '\0';
    }
  }

  function ParseAtom(s: string): (r: Parsed)
    ensures r.Ok? ==> |r.rest| < |s|
  {
    if Head(s) == '\"' then
      ParsedString(StringToken.Lex(s[1..]))
    else if Head(s) == '-' || IsDigit(Head(s)) then ParseNumber(s)
    else if "null" <= s then Ok(Null, s[4..])
    else if "false" <= s then Ok(False, s[5..])
    else if "true" <= s then Ok(True, s[4..])
    else Fail
  }

  function ParsedString(r: StringToken.Lexed): Parsed {
    if r.Astray? then Outside else Ok(String(StringToken.Meaning(r.units)), r.rest)
  }

  /** The elements from the first unread one on, after those in `done`. */
  function ParseElements(done: seq<Json>, s: string): (r: Parsed)
    ensures r.Ok? ==> |r.rest| < |s|
    decreases |s|, 3
  {
    match ParseValue(Skip(s))
    case Ok(v, rest) =>
      var t := Skip(rest);
      if Head(t) == ',' then ParseElements(done + [v], t[1..])
      else if Head(t) == ']' then Ok(Array(done + [v]), t[1..])
      else Fail
    case r => r
  }

  /** The members from the first unread one on, after those in `done`. */
  function ParseMembers(done: seq<Member>, s: string): (r: Parsed)
    ensures r.Ok? ==> |r.rest| < |s|
    decreases |s|, 3
  {
    var t := Skip(s);
    if Head(t) != '\"' then Fail
    else
      var key := StringToken.Lex(t[1..]);
      if key.Astray? then Outside
      else
        var u := Skip(key.rest);
        if Head(u) != ':' then Fail
        else
          match ParseValue(Skip(u[1..]))
          case Ok(v, rest) =>
            var done' := done + [Member(StringToken.Meaning(key.units), v)];
            var t' := Skip(rest);
            if Head(t') == ',' then ParseMembers(done', t'[1..])
            else if Head(t') == '}' then Ok(Object(done'), t'[1..])
            else Fail
          case r => r
  }

  /** Sign, digits, fraction and exponent; every part may be missing. */
  function ParseNumber(s: string): (r: Parsed)
    requires Head(s) == '-' || IsDigit(Head(s))
    ensures r.Ok? && r.value.Number? && |r.rest| < |s|
  {
    var (whole, s1) := ParseWhole(if Head(s) == '-' then s[1..] else s);
    var (fraction, s2) := ParseFraction(s1);
    var (exponent, s3) := ParseExponent(s2);
    Ok(NumberOf(Head(s) == '-', whole, fraction, exponent), s3)
  }

  /** The digits before the point, without a leading zero; behind a zero further digits may follow. */
  function ParseWhole(s: string): (r: (string, string))
    ensures AllDigits(r.0) && |r.1| <= |s| && (IsDigit(Head(s)) ==> |r.1| < |s|)
  {
    var t := if Head(s) == '0' then s[1..] else s;
    var d := if Head(t) == '0' then "" else Digits(t);
    (d, t[|d|..])
  }

  function ParseFraction(s: string): (r: (string, string))
    ensures AllDigits(r.0) && |r.1| <= |s|
  {
    var d := if Head(s) == '.' then Digits(s[1..]) else "";
    (d, if d == "" then s else s[1 + |d|..])
  }

  function ParseExponent(s: string): (r: (int, string))
    ensures |r.1| <= |s|
  {
    if !IsE(Head(s)) then (0, s)
    else
      var t := if Head(s[1..]) == '+' || Head(s[1..]) == '-' then s[2..] else s[1..];
      var d := Digits(t);
      var x: int := Decimal(d);
      (if Head(s[1..]) == '-' then -x else x, t[|d|..])
  }

  // ---------- Every grammatical text is read back ----------

  /** The text `k` cannot extend a number that stands before it. */
  predicate Stops(k: string) {
    !IsDigit(Head(k)) && !IsE(Head(k)) && !(Head(k) == '.' && IsDigit(Head(k[1..])))
  }

  /** The number ends before `k`: what is there is not read as a part of it. */
  predicate FigureEnds(f: Figure, k: string) {
    if IsE(f.e) then
      !IsDigit(Head(k)) && (f.sign == "" && f.exponent == "" ==> Head(k) != '+' && Head(k) != '-')
    else
      !IsE(Head(k)) && FractionEnds(f, k)
  }

  predicate FractionEnds(f: Figure, k: string) {
    if f.fraction != "" then
      !IsDigit(Head(k))
    else
      !(Head(k) == '.' && IsDigit(Head(k[1..]))) && WholeEnds(f.whole, k)
  }

  /** Behind a leading zero no second one is read. */
  predicate WholeEnds(whole: string, k: string) {
    if whole == "0" then Head(k) == '0' || !IsDigit(Head(k)) else !IsDigit(Head(k))
  }

  /** The digits without a leading zero. */
  function WithoutZero(whole: string): string {
    if Head(whole) == '0' then whole[1..] else whole
  }

  lemma {:induction false} DecimalOfZero(d: string)
    ensures Decimal("0" + d) == Decimal(d)
  {
    if d == "" {
      assert ("0" + d)[..0] == "";
    } else {
      DecimalOfZero(d[..|d| - 1]);
      assert ("0" + d)[..|d|] == "0" + d[..|d| - 1];
    }
  }

  function FractionText(f: Figure): string {
    if f.fraction == "" then "" else "." + f.fraction
  }

  function ExponentText(f: Figure): string {
    if IsE(f.e) then [f.e] + (f.sign + f.exponent) else ""
  }

  lemma ReadExponent(f: Figure, k: string)
    requires LenientFigure(f) && FigureEnds(f, k)
    ensures ParseExponent(ExponentText(f) + k) == (ExponentValue(f), k)
  {
    hide Decimal, Digits;
    var s, d := ExponentText(f) + k, f.exponent + k;
    NoExponent();
    if IsE(f.e) {
      assert s == [f.e] + (f.sign + d);
      DigitsStop(f.exponent, k);
      if f.exponent != "" {
        assert d[0] == f.exponent[0] && IsDigit(f.exponent[0]);
      } else {
        assert d == k;
      }
      ExponentOf(f.e, f.sign, d);
    } else {
      assert s == k;
    }
  }

  lemma NoExponent()
    ensures Decimal("") == 0
  {
  }

  lemma ExponentOf(e: char, sign: string, t: string)
    requires IsE(e) && IsSign(sign) && (sign == "" ==> Head(t) != '+' && Head(t) != '-')
    ensures ParseExponent([e] + (sign + t)) == (SignedDecimal(sign, Digits(t)), t[|Digits(t)|..])
  {
    hide ParseExponent, SignedDecimal, Digits;
    if sign == "" {
      assert sign + t == t;
      UnsignedExponent(e, t);
    } else {
      assert sign == [sign[0]];
      SignedExponent(e, sign[0], t);
    }
  }

  lemma UnsignedExponent(e: char, t: string)
    requires IsE(e) && Head(t) != '+' && Head(t) != '-'
    ensures ParseExponent([e] + t) == (SignedDecimal("", Digits(t)), t[|Digits(t)|..])
  {
    hide Digits, Decimal;
    var s := [e] + t;
    assert s[1..] == t;
  }

  lemma SignedExponent(e: char, c: char, t: string)
    requires IsE(e) && (c == '+' || c == '-')
    ensures ParseExponent([e] + ([c] + t)) == (SignedDecimal([c], Digits(t)), t[|Digits(t)|..])
  {
    hide Digits, Decimal;
    var s := [e] + ([c] + t);
    assert s[1..][0] == c && s[2..] == t;
  }

  lemma DigitsSplit(t: string)
    ensures t == Digits(t) + t[|Digits(t)|..] && AllDigits(Digits(t)) && !IsDigit(Head(t[|Digits(t)|..]))
  {
    hide Digits;
  }

  lemma ReadFraction(f: Figure, t: string)
    requires AllDigits(f.fraction) && FractionEnds(f, t)
    ensures ParseFraction(FractionText(f) + t) == (f.fraction, t)
    ensures WholeEnds(f.whole, FractionText(f) + t)
  {
    var s := FractionText(f) + t;
    if f.fraction == "" {
      assert s == t;
    } else {
      assert s[1..] == f.fraction + t;
      DigitsStop(f.fraction, t);
    }
  }

  lemma ReadWhole(whole: string, t: string)
    requires AllDigits(whole) && (|whole| > 1 && whole[0] == '0' ==> whole[1] != '0') && WholeEnds(whole, t)
    ensures ParseWhole(whole + t) == (WithoutZero(whole), t)
  {
    hide *;
    if whole == "" {
      assert whole + t == t;
      EmptyWhole(t);
    } else if whole[0] == '0' {
      var d := whole[1..];
      assert whole == "0" + d && "0" + d + t == "0" + (d + t);
      BehindZero(d, t);
    } else {
      NonzeroWhole(whole, t);
    }
  }

  lemma EmptyWhole(t: string)
    requires WholeEnds("", t)
    ensures ParseWhole(t) == (WithoutZero(""), t)
  {
    assert t[0..] == t;
  }

  lemma BehindZero(d: string, t: string)
    requires AllDigits("0" + d) && (d != "" ==> d[0] != '0') && WholeEnds("0" + d, t)
    ensures ParseWhole("0" + (d + t)) == (WithoutZero("0" + d), t)
  {
    hide Digits;
    var s := "0" + (d + t);
    assert s[1..] == d + t && ("0" + d)[1..] == d;
    if d == "" {
      assert d + t == t && t[0..] == t;
      if Head(t) != '0' {
        NoDigit(t);
      }
    } else {
      assert (d + t)[0] == d[0];
      DigitsOf("0", d);
      DigitsStop(d, t);
    }
  }

  lemma DigitsOf(a: string, d: string)
    requires AllDigits(a + d)
    ensures AllDigits(d)
  {
    forall i | 0 <= i < |d|
      ensures IsDigit(d[i])
    {
      assert d[i] == (a + d)[|a| + i];
    }
  }

  lemma NonzeroWhole(whole: string, t: string)
    requires AllDigits(whole) && whole != "" && whole[0] != '0' && WholeEnds(whole, t)
    ensures ParseWhole(whole + t) == (WithoutZero(whole), t)
  {
    hide Digits;
    DigitsStop(whole, t);
    assert (whole + t)[0] == whole[0];
  }

  lemma ValueWithoutZero(f: Figure)
    ensures NumberOf(f.minus, WithoutZero(f.whole), f.fraction, ExponentValue(f)) == FigureValue(f)
  {
    if Head(f.whole) == '0' {
      DecimalOfZero(f.whole[1..] + f.fraction);
      assert "0" + (f.whole[1..] + f.fraction) == f.whole + f.fraction;
    }
  }

  lemma FigureText(f: Figure, k: string)
    requires LenientFigure(f)
    ensures var t := f.whole + (FractionText(f) + (ExponentText(f) + k)); var s := EmitFigure(f, k);
      && (Head(s) == '-' || IsDigit(Head(s))) && (Head(s) == '-' <==> f.minus)
      && (if Head(s) == '-' then s[1..] else s) == t
  {
    var t := f.whole + (FractionText(f) + (ExponentText(f) + k));
    if f.minus {
      assert ("-" + t)[1..] == t;
    } else {
      assert IsDigit(f.whole[0]) && t[0] == f.whole[0];
      assert "" + t == t;
    }
  }

  lemma ReadParts(f: Figure, k: string)
    requires LenientFigure(f) && FigureEnds(f, k)
    ensures var t2 := ExponentText(f) + k; var t1 := FractionText(f) + t2;
      && ParseWhole(f.whole + t1) == (WithoutZero(f.whole), t1)
      && ParseFraction(t1) == (f.fraction, t2)
  {
    var t2 := ExponentText(f) + k;
    if !IsE(f.e) {
      assert t2 == k;
    }
    ReadFraction(f, t2);
    ReadWhole(f.whole, FractionText(f) + t2);
  }

  /** Every number that is accepted is read to its exact value. */
  lemma ReadFigure(f: Figure, k: string)
    requires LenientFigure(f) && FigureEnds(f, k)
    ensures var s := EmitFigure(f, k);
      (Head(s) == '-' || IsDigit(Head(s))) && ParseNumber(s) == Ok(FigureValue(f), k)
  {
    hide Digits, ParseWhole, ParseFraction, ParseExponent, NumberOf, FigureValue, ExponentValue;
    var s := EmitFigure(f, k);
    var t2 := ExponentText(f) + k;
    var t1 := FractionText(f) + t2;
    FigureText(f, k);
    ReadParts(f, k);
    ReadExponent(f, k);
    assert ParseNumber(s) == Ok(NumberOf(f.minus, WithoutZero(f.whole), f.fraction, ExponentValue(f)), k);
    ValueWithoutZero(f);
  }

  lemma NumberFirst(s: string)
    requires Head(s) == '-' || IsDigit(Head(s))
    ensures ParseValue(s) == ParseNumber(s)
  {
    hide ParseElements, ParseMembers, ParseNumber;
    assert ParseValue(s) == ParseAtom(s);
  }

  lemma StringFirst(us: seq<StringToken.Unit>, k: string)
    requires StringToken.AllWellFormed(us)
    ensures ParseValue(EmitString(us, k)) == Ok(String(StringToken.Meaning(us)), k)
  {
    var t := StringToken.Emit(us, "\"" + k);
    assert ("\"" + t)[1..] == t;
    StringToken.LexEmit(us, k);
  }

  lemma WordFirst(w: Json, k: string)
    requires WellFormed(Word(w), Lenient)
    ensures ParseValue(Emit(Word(w), k)) == Ok(w, k)
  {
    var text := if w.Null? then "null" else if w.False? then "false" else "true";
    var s := text + k;
    assert s[..|text|] == text && s[|text|..] == k;
    assert s[0] == text[0];
  }

  /** A value starts with a byte that is neither blank nor the terminator nor a closing bracket. */
  lemma EmitHead(c: Syntax, k: string)
    requires WellFormed(c, Lenient)
    ensures Head(Emit(c, k)) > ' ' && Head(Emit(c, k)) != ']'
  {
    if c.Figure? {
      FigureText(c.figure, k);
    }
  }

  /** Only a number has no end of its own. */
  predicate Ends(c: Syntax, k: string) {
    c.Figure? ==> FigureEnds(c.figure, k)
  }

  lemma StopsEnds(c: Syntax, k: string)
    requires Stops(k) && ((Head(k) != '+' && Head(k) != '-') || WellFormed(c, Rfc))
    ensures Ends(c, k)
  {
  }

  /**
    Every value that is spelled in the lenient style is parsed to what it means, whatever text follows, and the parser
    stops exactly where it ends. A number must be followed by something that cannot extend it.
   */
  lemma {:induction false} ParseEmit(c: Syntax, k: string)
    requires WellFormed(c, Lenient) && Ends(c, k)
    ensures ParseValue(Emit(c, k)) == Ok(Value(c), k)
    decreases c
  {
    match c
    case Word(w) => WordFirst(w, k);
    case Figure(f) =>
      ReadFigure(f, k);
      NumberFirst(EmitFigure(f, k));
    case Quoted(us) => StringFirst(us, k);
    case Brackets(inner, es) =>
      var t := if es.NoElement? then inner + ("]" + k) else EmitElements(es, k);
      assert ("[" + t)[1..] == t;
      if es.NoElement? {
        SkipBlank(inner, "]" + k);
        assert ("]" + k)[1..] == k;
      } else {
        ParseEmitElements([], es, k);
        assert [] + ElementValues(es) == ElementValues(es);
      }
    case Braces(inner, es) =>
      var t := if es.NoEntry? then inner + ("}" + k) else EmitEntries(es, k);
      assert ("{" + t)[1..] == t;
      if es.NoEntry? {
        SkipBlank(inner, "}" + k);
        assert ("}" + k)[1..] == k;
      } else {
        ParseEmitEntries([], es, k);
        assert [] + EntryValues(es) == EntryValues(es);
      }
  }

  /** What follows an element or an entry ends a number and is found behind the blanks. */
  lemma Separator(after: string, k: string)
    requires AllSkipped(after)
    requires Head(k) == ',' || Head(k) == ']' || Head(k) == '}'
    ensures Stops(after + k) && Head(after + k) != '+' && Head(after + k) != '-' && Skip(after + k) == k
  {
    SkipBlank(after, k);
    if after == "" {
      assert after + k == k;
    } else {
      assert Skipped(after[0]);
    }
  }

  /** One element is read up to the separator behind it. */
  lemma {:induction false} ReadElement(done: seq<Json>, es: Elements, more: string)
    requires es.Element? && WellFormedElements(es, Lenient)
    requires Head(more) == ',' || Head(more) == ']'
    ensures var s := es.before + Emit(es.value, es.after + more);
      && Head(Skip(s)) != ']'
      && ParseElements(done, s) == if Head(more) == ','
         then ParseElements(done + [Value(es.value)], more[1..])
         else Ok(Array(done + [Value(es.value)]), more[1..])
    decreases es, 0
  {
    EmitHead(es.value, es.after + more);
    SkipBlank(es.before, Emit(es.value, es.after + more));
    Separator(es.after, more);
    StopsEnds(es.value, es.after + more);
    ParseEmit(es.value, es.after + more);
    hide ParseValue, Emit, Value, WellFormed;
  }

  lemma {:induction false} ParseEmitElements(done: seq<Json>, es: Elements, k: string)
    requires es.Element? && WellFormedElements(es, Lenient)
    ensures Head(Skip(EmitElements(es, k))) != ']'
    ensures ParseElements(done, EmitElements(es, k)) == Ok(Array(done + ElementValues(es)), k)
    decreases es, 1
  {
    hide ParseValue, ParseElements, Emit, Value, WellFormed, Skip;
    var more := if es.tail.NoElement? then "]" + k else "," + EmitElements(es.tail, k);
    var done' := done + [Value(es.value)];
    ReadElement(done, es, more);
    if es.tail.NoElement? {
      assert more[1..] == k;
      assert done' == done + ElementValues(es);
    } else {
      ParseEmitElements(done', es.tail, k);
      assert more[1..] == EmitElements(es.tail, k);
      assert done' + ElementValues(es.tail) == done + ElementValues(es);
    }
  }

  /** One entry is read up to the separator behind it. */
  lemma {:induction false} ReadEntry(done: seq<Member>, es: Entries, more: string)
    requires es.Entry? && WellFormedEntries(es, Lenient)
    requires Head(more) == ',' || Head(more) == '}'
    ensures var s := es.before + EmitString(es.key, es.beforeColon + (":" + (es.afterColon + Emit(es.value, es.after + more))));
      var done' := done + [Member(StringToken.Meaning(es.key), Value(es.value))];
      && Head(Skip(s)) == '\"'
      && ParseMembers(done, s) == if Head(more) == ',' then ParseMembers(done', more[1..])
         else Ok(Object(done'), more[1..])
    decreases es, 0
  {
    var u := es.afterColon + Emit(es.value, es.after + more);
    EmitHead(es.value, es.after + more);
    SkipBlank(es.afterColon, Emit(es.value, es.after + more));
    Separator(es.after, more);
    StopsEnds(es.value, es.after + more);
    ParseEmit(es.value, es.after + more);
    EntryKey(es, ":" + u);
    assert (":" + u)[1..] == u;
    hide ParseValue, Emit, EmitString, Value, WellFormed, StringToken.Meaning, StringToken.Lex;
  }

  lemma {:induction false} ParseEmitEntries(done: seq<Member>, es: Entries, k: string)
    requires es.Entry? && WellFormedEntries(es, Lenient)
    ensures Head(Skip(EmitEntries(es, k))) == '\"'
    ensures ParseMembers(done, EmitEntries(es, k)) == Ok(Object(done + EntryValues(es)), k)
    decreases es, 1
  {
    hide ParseValue, ParseMembers, Emit, EmitString, Value, WellFormed, Skip, StringToken.Meaning, EmitEntries, EntryValues;
    var more := if es.tail.NoEntry? then "}" + k else "," + EmitEntries(es.tail, k);
    var done' := done + [Member(StringToken.Meaning(es.key), Value(es.value))];
    ReadEntry(done, es, more);
    EntryUnfolded(done, es, k);
    if es.tail.Entry? {
      ParseEmitEntries(done', es.tail, k);
    }
  }

  lemma EntryUnfolded(done: seq<Member>, es: Entries, k: string)
    requires es.Entry?
    ensures var more := if es.tail.NoEntry? then "}" + k else "," + EmitEntries(es.tail, k);
      && EmitEntries(es, k) ==
         es.before + EmitString(es.key, es.beforeColon + (":" + (es.afterColon + Emit(es.value, es.after + more))))
      && more[1..] == (if es.tail.NoEntry? then k else EmitEntries(es.tail, k))
    ensures var done' := done + [Member(StringToken.Meaning(es.key), Value(es.value))];
      done + EntryValues(es) == if es.tail.NoEntry? then done' else done' + EntryValues(es.tail)
  {
    hide Emit, EmitString, Value, StringToken.Meaning;
  }

  /** The key of an entry is read up to its colon. */
  lemma EntryKey(es: Entries, colon: string)
    requires es.Entry? && WellFormedEntries(es, Lenient) && Head(colon) == ':'
    ensures var t := EmitString(es.key, es.beforeColon + colon);
      && Skip(es.before + t) == t && Head(t) == '\"'
      && StringToken.Lex(t[1..]) == StringToken.Closed(es.key, es.beforeColon + colon)
      && Skip(es.beforeColon + colon) == colon
  {
    var t := EmitString(es.key, es.beforeColon + colon);
    SkipBlank(es.before, t);
    SkipBlank(es.beforeColon, colon);
    StringToken.LexEmit(es.key, es.beforeColon + colon);
    assert t[1..] == StringToken.Emit(es.key, "\"" + (es.beforeColon + colon));
  }
}
