/** Exactly which texts the parser accepts, and what they mean. */
module Language {
  import opened CString
  import opened Grammar
  import opened Json
  import opened Parser
  import StringToken

  // ---------- Numbers ----------

  /** Every number that is read is spelled in the lenient style, up to where it ends. */
  lemma SpelledNumber(s: string, v: Json, k: string) returns (f: Figure)
    requires (Head(s) == '-' || IsDigit(Head(s))) && ParseNumber(s) == Ok(v, k)
    ensures LenientFigure(f) && s == EmitFigure(f, k) && FigureEnds(f, k) && v == FigureValue(f)
  {
    hide ParseWhole, ParseFraction, ParseExponent, Decimal, NumberOf;
    var minus := Head(s) == '-';
    var t := if minus then s[1..] else s;
    var (d, s1) := ParseWhole(t);
    var (fraction, s2) := ParseFraction(s1);
    var (x, s3) := ParseExponent(s2);
    var whole := SpelledWhole(t, d, s1);
    SpelledFraction(s1, fraction, s2);
    var e, sign, exponent := SpelledExponent(s2, x, s3);
    f := Parts(minus, whole, fraction, e, sign, exponent);
    Assembled(f, s, t, s1, s2, k);
    ValueWithoutZero(f);
  }

  lemma Assembled(f: Figure, s: string, t: string, s1: string, s2: string, k: string)
    requires t == f.whole + s1 && s1 == FractionText(f) + s2 && s2 == ExponentText(f) + k
    requires s != "" && (f.minus <==> s[0] == '-') && t == (if f.minus then s[1..] else s)
    ensures s == EmitFigure(f, k)
    ensures !IsE(f.e) ==> s2 == k && (f.fraction == "" ==> s1 == k)
  {
    assert s == (if f.minus then "-" else "") + t;
    assert !IsE(f.e) ==> s2 == k;
    assert f.fraction == "" ==> s1 == s2;
  }

  lemma SpelledWhole(t: string, d: string, s1: string) returns (whole: string)
    requires ParseWhole(t) == (d, s1)
    ensures AllDigits(whole) && t == whole + s1 && WithoutZero(whole) == d && WholeEnds(whole, s1)
    ensures |whole| > 1 && whole[0] == '0' ==> whole[1] != '0'
    ensures whole == "" ==> !IsDigit(Head(t))
  {
    hide *;
    if Head(t) == '0' {
      whole := "0" + d;
      SpelledBehindZero(t, d, s1);
    } else {
      whole := d;
      SpelledNonzero(t, d, s1);
    }
  }

  lemma SpelledBehindZero(t: string, d: string, s1: string)
    requires ParseWhole(t) == (d, s1) && Head(t) == '0'
    ensures AllDigits("0" + d) && t == "0" + d + s1 && WithoutZero("0" + d) == d && WholeEnds("0" + d, s1)
    ensures |"0" + d| > 1 ==> ("0" + d)[1] != '0'
  {
    hide ParseWhole, Digits, AllDigits, WithoutZero, WholeEnds;
    var u := t[1..];
    assert t == "0" + u;
    WholeBehindZero(u);
    if Head(u) == '0' {
      OneZero(s1);
    } else {
      DigitsSplit(u);
      MoreBehindZero(d, s1, u);
    }
    assert t == "0" + (d + s1);
  }

  lemma WholeBehindZero(u: string)
    ensures ParseWhole("0" + u) == if Head(u) == '0' then ("", u) else (Digits(u), u[|Digits(u)|..])
  {
    hide Digits;
    assert ("0" + u)[1..] == u && u[0..] == u;
  }

  lemma OneZero(s1: string)
    requires Head(s1) == '0'
    ensures AllDigits("0" + "") && WithoutZero("0" + "") == "" && WholeEnds("0" + "", s1)
    ensures "" + s1 == s1
  {
    assert "0" + "" == "0";
  }

  lemma MoreBehindZero(d: string, s1: string, u: string)
    requires AllDigits(d) && u == d + s1 && Head(u) != '0' && !IsDigit(Head(s1))
    ensures AllDigits("0" + d) && WithoutZero("0" + d) == d && WholeEnds("0" + d, s1)
    ensures |"0" + d| > 1 ==> ("0" + d)[1] != '0'
  {
    assert ("0" + d)[1..] == d;
    if d != "" {
      assert ("0" + d)[1] == d[0] == u[0];
    }
  }

  lemma SpelledNonzero(t: string, d: string, s1: string)
    requires ParseWhole(t) == (d, s1) && Head(t) != '0'
    ensures AllDigits(d) && t == d + s1 && WithoutZero(d) == d && WholeEnds(d, s1)
    ensures d != "" ==> d[0] != '0'
    ensures d == "" ==> !IsDigit(Head(t))
  {
    hide Digits;
    DigitsSplit(t);
    if d != "" {
      assert d[0] == t[0];
    } else {
      assert t == s1;
    }
  }

  lemma SpelledFraction(s1: string, fraction: string, s2: string)
    requires ParseFraction(s1) == (fraction, s2)
    ensures AllDigits(fraction) && s1 == (if fraction == "" then "" else "." + fraction) + s2
    ensures fraction != "" ==> !IsDigit(Head(s2))
    ensures fraction == "" ==> !(Head(s2) == '.' && IsDigit(Head(s2[1..])))
  {
    hide Digits;
    if Head(s1) == '.' {
      var u := s1[1..];
      DigitsSplit(u);
      assert s1 == "." + u;
      if fraction != "" {
        assert s1[1 + |fraction|..] == u[|fraction|..];
        assert "." + (fraction + s2) == "." + fraction + s2;
      } else {
        assert u[0..] == u;
      }
    }
  }

  lemma SpelledExponent(s2: string, x: int, s3: string) returns (e: char, sign: string, d: string)
    requires ParseExponent(s2) == (x, s3)
    ensures IsSign(sign) && AllDigits(d) && (IsE(e) || (e == NO_E && sign == "" && d == ""))
    ensures s2 == (if IsE(e) then [e] + (sign + d) else "") + s3 && x == SignedDecimal(sign, d)
    ensures IsE(e) ==> !IsDigit(Head(s3)) && (sign == "" && d == "" ==> Head(s3) != '+' && Head(s3) != '-')
    ensures !IsE(e) ==> !IsE(Head(s3))
  {
    hide Decimal, Digits;
    if IsE(Head(s2)) {
      var u := s2[1..];
      assert s2 == [s2[0]] + u;
      var signed := Head(u) == '+' || Head(u) == '-';
      e, sign := s2[0], if signed then [u[0]] else "";
      var t := if signed then u[1..] else u;
      assert u == sign + t;
      ExponentOf(e, sign, t);
      d := Digits(t);
      DigitsSplit(t);
      Join(e, sign, d, s3);
      assert d == "" ==> t == s3;
    } else {
      NoExponent();
      e, sign, d := NO_E, "", "";
      assert s2 == "" + s3;
    }
  }

  lemma Join(e: char, sign: string, d: string, k: string)
    ensures [e] + (sign + (d + k)) == [e] + (sign + d) + k
  {
  }

  // ---------- Values ----------

  /** The text `s` is a spelling of the value, followed by `k`. */
  ghost predicate Spells(c: Syntax, v: Json, s: string, k: string) {
    WellFormed(c, Lenient) && Ends(c, k) && s == Emit(c, k) && v == Value(c)
  }

  /** The text `s` is a string that the end `k` of the text cuts off. */
  ghost predicate SpellsCut(us: seq<StringToken.Unit>, v: Json, s: string, k: string) {
    && StringToken.AllWellFormed(us) && Head(k) == '\0'
    && s == "\"" + StringToken.Emit(us, k) && v == String(StringToken.Meaning(us))
  }

  predicate CutAt(s: string) {
    Head(s) == '\"' && StringToken.Lex(s[1..]).Cut?
  }

  /** The blanks before what is read next. */
  function Gone(s: string): (ws: string)
    ensures AllSkipped(ws) && s == ws + Skip(s)
  {
    SkipDrops(s);
    s[..|s| - |Skip(s)|]
  }

  lemma SpelledAtom(s: string, v: Json, k: string) returns (c: Syntax)
    requires ParseAtom(s) == Ok(v, k) && !CutAt(s)
    ensures Spells(c, v, s, k)
  {
    hide ParseNumber, StringToken.Lex, StringToken.Meaning, FigureEnds, LenientFigure, EmitFigure, FigureValue;
    if Head(s) == '\"' {
      var r := StringToken.Lex(s[1..]);
      StringToken.EmitLex(s[1..]);
      assert s == "\"" + s[1..];
      c := Quoted(r.units);
    } else if Head(s) == '-' || IsDigit(Head(s)) {
      var f := SpelledNumber(s, v, k);
      c := Figure(f);
    } else {
      c := Word(v);
      SpelledWord(s, v, k);
    }
  }

  lemma SpelledWord(s: string, v: Json, k: string)
    requires var w := if v.Null? then "null" else if v.False? then "false" else "true";
      (v.Null? || v.False? || v.True?) && w <= s && k == s[|w|..]
    ensures Spells(Word(v), v, s, k)
  {
  }

  /** Every value that is read is spelled in the lenient style, up to where it ends. */
  lemma {:induction false} SpelledValue(s: string, v: Json, k: string) returns (c: Syntax)
    requires ParseValue(s) == Ok(v, k) && !CutAt(s)
    ensures Spells(c, v, s, k)
    decreases |s|, 2
  {
    hide ParseAtom, ParseElements, ParseMembers, Skip, StringToken.Lex, AllSkipped, Spells;
    if Head(s) == '[' || Head(s) == '{' {
      var t := Skip(s[1..]);
      if Head(s) == '[' && Head(t) == ']' {
        c := EmptyBrackets(s, v, k);
      } else if Head(s) == '[' {
        var es := SpelledElements([], s[1..], v, k);
        c := BracketsOf(s, es, v, k);
      } else if Head(t) == '}' {
        c := EmptyBraces(s, v, k);
      } else {
        var es := SpelledEntries([], s[1..], v, k);
        c := BracesOf(s, es, v, k);
      }
    } else {
      c := SpelledAtom(s, v, k);
    }
  }

  lemma EmptyBrackets(s: string, v: Json, k: string) returns (c: Syntax)
    requires Head(s) == '[' && v == Array([]) && var t := Skip(s[1..]); Head(t) == ']' && k == t[1..]
    ensures Spells(c, v, s, k)
  {
    hide Skip, AllSkipped;
    var inner := Gone(s[1..]);
    c := Brackets(inner, NoElement);
    assert Skip(s[1..]) == "]" + k;
    assert s[1..] == inner + ("]" + k);
    assert s == "[" + s[1..];
    assert WellFormedElements(NoElement, Lenient) && ElementValues(NoElement) == [];
    assert WellFormed(c, Lenient) && Value(c) == Array(ElementValues(NoElement));
  }

  lemma EmptyBraces(s: string, v: Json, k: string) returns (c: Syntax)
    requires Head(s) == '{' && v == Object([]) && var t := Skip(s[1..]); Head(t) == '}' && k == t[1..]
    ensures Spells(c, v, s, k)
  {
    hide Skip, AllSkipped;
    var inner := Gone(s[1..]);
    c := Braces(inner, NoEntry);
    assert Skip(s[1..]) == "}" + k;
    assert s[1..] == inner + ("}" + k);
    assert s == "{" + s[1..];
    assert WellFormedEntries(NoEntry, Lenient) && EntryValues(NoEntry) == [];
    assert WellFormed(c, Lenient) && Value(c) == Object(EntryValues(NoEntry));
  }

  lemma BracketsOf(s: string, es: Elements, v: Json, k: string) returns (c: Syntax)
    requires Head(s) == '[' && es.Element? && WellFormedElements(es, Lenient)
    requires s[1..] == EmitElements(es, k) && v == Array([] + ElementValues(es))
    ensures Spells(c, v, s, k)
  {
    c := Brackets("", es);
    assert s == "[" + s[1..] && [] + ElementValues(es) == ElementValues(es);
  }

  lemma BracesOf(s: string, es: Entries, v: Json, k: string) returns (c: Syntax)
    requires Head(s) == '{' && es.Entry? && WellFormedEntries(es, Lenient)
    requires s[1..] == EmitEntries(es, k) && v == Object([] + EntryValues(es))
    ensures Spells(c, v, s, k)
  {
    c := Braces("", es);
    assert s == "{" + s[1..] && [] + EntryValues(es) == EntryValues(es);
  }

  /** Behind a string that is cut off nothing more is read. */
  lemma NothingBehindCut(s: string, v: Json, k: string)
    requires ParseValue(s) == Ok(v, k) && CutAt(s)
    ensures Skip(k) == k && Head(k) == '\0'
  {
  }

  lemma {:induction false} SpelledElements(done: seq<Json>, s: string, v: Json, k: string) returns (es: Elements)
    requires ParseElements(done, s) == Ok(v, k)
    ensures es.Element? && WellFormedElements(es, Lenient)
    ensures s == EmitElements(es, k) && v == Array(done + ElementValues(es))
    decreases |s|, 3
  {
    hide ParseValue, Skip, StringToken.Lex, AllSkipped;
    var u := Skip(s);
    var item, rest := ParseValue(u).value, ParseValue(u).rest;
    var t := Skip(rest);
    if CutAt(u) {
      NothingBehindCut(u, item, rest);
    }
    var c := SpelledValue(u, item, rest);
    var tail := NoElement;
    if Head(t) == ',' {
      tail := SpelledElements(done + [item], t[1..], v, k);
    }
    es := ElementOf(done, item, Gone(s), c, Gone(rest), tail, s, u, rest, t, v, k);
  }

  lemma ElementOf(done: seq<Json>, item: Json, before: string, c: Syntax, after: string, tail: Elements, s: string,
                  u: string, rest: string, t: string, v: Json, k: string)
    returns (es: Elements)
    requires AllSkipped(before) && s == before + u && Spells(c, item, u, rest) && AllSkipped(after) && rest == after + t
    requires if tail.Element? then
        && Head(t) == ',' && WellFormedElements(tail, Lenient) && t[1..] == EmitElements(tail, k)
        && v == Array(done + [item] + ElementValues(tail))
      else
        Head(t) == ']' && t[1..] == k && v == Array(done + [item])
    ensures es.Element? && WellFormedElements(es, Lenient)
    ensures s == EmitElements(es, k) && v == Array(done + ElementValues(es))
  {
    hide WellFormed, Emit, Value, AllSkipped;
    es := Element(before, c, after, tail);
    assert t == [t[0]] + t[1..];
    assert done + [item] + ElementValues(tail) == done + ElementValues(es);
  }

  lemma {:induction false} SpelledEntries(done: seq<Member>, s: string, v: Json, k: string) returns (es: Entries)
    requires ParseMembers(done, s) == Ok(v, k)
    ensures es.Entry? && WellFormedEntries(es, Lenient)
    ensures s == EmitEntries(es, k) && v == Object(done + EntryValues(es))
    decreases |s|, 3
  {
    hide ParseValue, Skip, StringToken.Lex, AllSkipped, StringToken.Meaning;
    var key := StringToken.Lex(Skip(s)[1..]);
    var u := Skip(Skip(key.rest)[1..]);
    var item, rest := ParseValue(u).value, ParseValue(u).rest;
    var t := Skip(rest);
    if CutAt(u) {
      NothingBehindCut(u, item, rest);
    }
    var c := SpelledValue(u, item, rest);
    var m, tail := Member(StringToken.Meaning(key.units), item), NoEntry;
    if Head(t) == ',' {
      tail := SpelledEntries(done + [m], t[1..], v, k);
    }
    var before, beforeColon, afterColon := SpelledKey(s, u);
    es := Entry(before, key.units, beforeColon, afterColon, c, Gone(rest), tail);
    EntryOf(done, m, es, s, u, rest, t, v, k);
  }

  /** The key of a member, its colon, and what stands around them. */
  lemma SpelledKey(s: string, u: string) returns (before: string, beforeColon: string, afterColon: string)
    requires Head(Skip(s)) == '\"' && !StringToken.Lex(Skip(s)[1..]).Astray?
    requires var t := Skip(StringToken.Lex(Skip(s)[1..]).rest); Head(t) == ':' && u == Skip(t[1..])
    ensures AllSkipped(before) && AllSkipped(beforeColon) && AllSkipped(afterColon)
    ensures var us := StringToken.Lex(Skip(s)[1..]).units;
      StringToken.AllWellFormed(us) && s == before + EmitString(us, beforeColon + (":" + (afterColon + u)))
  {
    hide StringToken.Lex, Skip, AllSkipped;
    var t := Skip(s);
    var key := StringToken.Lex(t[1..]);
    var colon := Skip(key.rest);
    if key.Cut? {
      SkipAtEnd(key.rest);
    }
    StringToken.EmitLex(t[1..]);
    before, beforeColon, afterColon := Gone(s), Gone(key.rest), Gone(colon[1..]);
    assert colon == ":" + (afterColon + u);
    assert t == "\"" + t[1..];
  }

  lemma SkipAtEnd(k: string)
    requires Head(k) == '\0'
    ensures Skip(k) == k
  {
  }

  lemma EntryOf(done: seq<Member>, m: Member, es: Entries, s: string, u: string, rest: string, t: string,
                v: Json, k: string)
    requires es.Entry? && AllSkipped(es.before) && AllSkipped(es.beforeColon) && AllSkipped(es.afterColon)
    requires StringToken.AllWellFormed(es.key)
    requires s == es.before + EmitString(es.key, es.beforeColon + (":" + (es.afterColon + u)))
    requires Spells(es.value, m.value, u, rest) && m.key == StringToken.Meaning(es.key)
    requires AllSkipped(es.after) && rest == es.after + t
    requires if es.tail.Entry? then
        && Head(t) == ',' && WellFormedEntries(es.tail, Lenient) && t[1..] == EmitEntries(es.tail, k)
        && v == Object(done + [m] + EntryValues(es.tail))
      else
        Head(t) == '}' && t[1..] == k && v == Object(done + [m])
    ensures WellFormedEntries(es, Lenient) && s == EmitEntries(es, k) && v == Object(done + EntryValues(es))
  {
    hide WellFormed, Emit, EmitString, Value, AllSkipped, StringToken.Meaning;
    assert t == [t[0]] + t[1..];
    assert m == Member(m.key, m.value);
    assert done + [m] + EntryValues(es.tail) == done + EntryValues(es);
  }

  // ---------- The language ----------

  /**
    The parser accepts exactly the lenient spellings, and strings that the end of the text cuts off, each with its
    meaning and up to its end.
   */
  lemma Accepts(s: string, v: Json, k: string)
    ensures ParseValue(s) == Ok(v, k) <==>
      (exists c :: Spells(c, v, s, k)) || exists us :: SpellsCut(us, v, s, k)
  {
    hide ParseValue, StringToken.Lex, Emit, EmitString, WellFormed;
    if ParseValue(s) == Ok(v, k) {
      if CutAt(s) {
        CutSpelled(s, v, k);
      } else {
        var c := SpelledValue(s, v, k);
      }
    }
    if c :| Spells(c, v, s, k) {
      ParseEmit(c, k);
    }
    if us :| SpellsCut(us, v, s, k) {
      ParseCut(us, k);
    }
  }

  lemma CutSpelled(s: string, v: Json, k: string)
    requires ParseValue(s) == Ok(v, k) && CutAt(s)
    ensures SpellsCut(StringToken.Lex(s[1..]).units, v, s, k)
  {
    hide StringToken.Lex, StringToken.Meaning;
    StringToken.EmitLex(s[1..]);
    assert s == "\"" + s[1..];
  }

  lemma ParseCut(us: seq<StringToken.Unit>, k: string)
    requires StringToken.AllWellFormed(us) && Head(k) == '\0'
    ensures ParseValue("\"" + StringToken.Emit(us, k)) == Ok(String(StringToken.Meaning(us)), k)
  {
    StringToken.LexCut(us, k);
    assert ("\"" + StringToken.Emit(us, k))[1..] == StringToken.Emit(us, k);
  }
}
