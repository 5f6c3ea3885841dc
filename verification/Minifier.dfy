/** What `cJSON_Minify` computes, and why that keeps the meaning of a JSON text. */
module Minifier {
  import opened CString
  import opened Grammar
  import opened Json
  import Parser
  import Printer
  import StringToken

  predicate StartsWith(s: string, a: char, b: char) {
    s != "" && s[0] == a && Head(s[1..]) == b
  }

  /** The text from its first newline on. */
  function DropLine(s: string): (r: string)
    ensures |r| <= |s|
  {
    if Head(s) == '\0' || s[0] == '\n' then s else DropLine(s[1..])
  }

  /** The text behind the next end of a comment. */
  function DropComment(s: string): (r: string)
    ensures |r| <= |s|
  {
    if Head(s) == '\0' then ""
    else if StartsWith(s, '*', '/') then s[2..]
    else DropComment(s[1..])
  }

  /** The text without the blanks and comments that stand outside its string tokens. */
  function Minified(s: string): string
    decreases |s|, 1
  {
    if Head(s) == '\0' then ""
    else if BlankChar(s[0]) then Minified(s[1..])
    else if StartsWith(s, '/', '/') then Minified(DropLine(s[1..]))
    else if StartsWith(s, '/', '*') then Minified(DropComment(s[1..]))
    else if s[0] == '\"' then ['\"'] + MinifiedString(s[1..])
    else [s[0]] + Minified(s[1..])
  }

  /** Behind an opening quote everything up to the closing quote is kept. */
  function MinifiedString(s: string): string
    decreases |s|, 0
  {
    if Head(s) == '\0' then ""
    else if s[0] == '\"' then ['\"'] + Minified(s[1..])
    else if s[0] == '\\' && |s| > 1 then s[..2] + MinifiedString(s[2..])
    else [s[0]] + MinifiedString(s[1..])
  }

  /** Every comment and every string token ends before the text does. */
  predicate Tidy(s: string)
    decreases |s|, 1
  {
    if Head(s) == '\0' then true
    else if StartsWith(s, '/', '/') then Tidy(DropLine(s[1..]))
    else if StartsWith(s, '/', '*') then Ends(s[1..]) && Tidy(DropComment(s[1..]))
    else if s[0] == '\"' then TidyString(s[1..])
    else Tidy(s[1..])
  }

  predicate TidyString(s: string)
    decreases |s|, 0
  {
    if Head(s) == '\0' then false
    else if s[0] == '\"' then Tidy(s[1..])
    else if s[0] == '\\' then Head(s[1..]) != '\0' && TidyString(s[2..])
    else TidyString(s[1..])
  }

  predicate Ends(s: string) {
    Head(s) != '\0' && (StartsWith(s, '*', '/') || Ends(s[1..]))
  }

  // ---------- Grammatical texts ----------

  /** Blanks and comments are dropped. */
  lemma {:induction false} MinifyGap(ws: string, k: string)
    requires BlanksAndComments(ws)
    ensures Minified(ws + k) == Minified(k) && (Tidy(ws + k) <==> Tidy(k))
    decreases |ws|
  {
    hide Minified, Tidy, IsComment, BlankChar;
    if ws == "" {
      assert ws + k == k;
    } else if BlankChar(ws[0]) && BlanksAndComments(ws[1..]) {
      MinifyGap(ws[1..], k);
      MinifyBlank(ws[0], ws[1..] + k);
      Split(ws, 1, k);
    } else {
      var n :| 0 < n <= |ws| && IsComment(ws[..n]) && BlanksAndComments(ws[n..]);
      MinifyGap(ws[n..], k);
      MinifyComment(ws[..n], ws[n..] + k);
      Split(ws, n, k);
    }
  }

  lemma Split(ws: string, n: nat, k: string)
    requires n <= |ws|
    ensures ws[..n] + (ws[n..] + k) == ws + k
    ensures n == 1 ==> [ws[0]] + (ws[1..] + k) == ws + k
  {
  }

  lemma MinifyBlank(c: char, t: string)
    requires BlankChar(c)
    ensures Minified([c] + t) == Minified(t) && (Tidy([c] + t) <==> Tidy(t))
  {
    assert ([c] + t)[1..] == t;
  }

  /** Spaces, tabs, carriage returns and newlines are dropped; any other byte that starts nothing is kept. */
  lemma MinifyByte(c: char, t: string)
    ensures c as int == 32 || c as int == 9 || c as int == 13 || c as int == 10 ==> Minified([c] + t) == Minified(t)
    ensures c as int > 32 && c != '/' && c != '\"' ==> Minified([c] + t) == [c] + Minified(t)
    ensures 0 < c as int < 32 && c as int != 9 && c as int != 13 && c as int != 10 ==>
      Minified([c] + t) == [c] + Minified(t)
    ensures c == '/' && Head(t) != '/' && Head(t) != '*' ==> Minified([c] + t) == [c] + Minified(t)
  {
    assert ([c] + t)[1..] == t;
  }

  /** A comment that runs to the end of the text is dropped, and so is what stands behind a NUL. */
  lemma MinifyEnd(line: string, t: string)
    requires forall i :: 0 <= i < |line| ==> line[i] != '\n' && line[i] != '\0'
    ensures Minified("//" + line) == "" && Minified("\0" + t) == ""
  {
    var s := "//" + line;
    assert s[1..] == "/" + line;
    DropToEndOfText("/" + line);
  }

  lemma {:induction false} DropToEndOfText(line: string)
    requires forall i :: 0 <= i < |line| ==> line[i] != '\n' && line[i] != '\0'
    ensures DropLine(line) == ""
  {
    if line != "" {
      DropToEndOfText(line[1..]);
    }
  }

  lemma MinifyComment(c: string, t: string)
    requires IsComment(c)
    ensures Minified(c + t) == Minified(t) && (Tidy(c + t) <==> Tidy(t))
  {
    var d := c[1..];
    assert (c + t)[1..] == d + t && (c + t)[0] == '/' && (d + t)[0] == c[1];
    if c[1] == '/' {
      var line := d[..|d| - 1];
      assert d + t == line + ("\n" + t) && forall i :: 0 <= i < |line| ==> line[i] == c[i + 1];
      DropToNewline(line, t);
      MinifyBlank('\n', t);
    } else {
      assert forall i :: 0 <= i < |d| ==> d[i] == c[i + 1];
      assert forall i :: 0 <= i < |d| ==> Closes(d, i) == Closes(c, i + 1);
      DropToEnd(d, t);
    }
  }

  lemma {:induction false} DropToNewline(line: string, t: string)
    requires forall i :: 0 <= i < |line| ==> line[i] != '\n' && line[i] != '\0'
    ensures DropLine(line + ("\n" + t)) == "\n" + t
  {
    if line == "" {
      assert line + ("\n" + t) == "\n" + t;
    } else {
      DropToNewline(line[1..], t);
      assert (line + ("\n" + t))[1..] == line[1..] + ("\n" + t);
    }
  }

  lemma {:induction false} DropToEnd(d: string, t: string)
    requires |d| >= 2 && Closes(d, |d| - 2) && forall i :: 0 <= i < |d| - 2 ==> !Closes(d, i)
    requires forall i :: 0 <= i < |d| ==> d[i] != '\0'
    ensures DropComment(d + t) == t && Ends(d + t)
  {
    var s := d + t;
    assert s[1..] == d[1..] + t && s[0] == d[0] && s[1..][0] == d[1];
    if |d| == 2 {
      assert s[2..] == t;
    } else {
      assert !Closes(d, 0) && Closes(d[1..], |d[1..]| - 2);
      assert forall i :: 0 <= i < |d[1..]| - 2 ==> Closes(d[1..], i) == Closes(d, i + 1);
      DropToEnd(d[1..], t);
    }
  }

  predicate Solid(s: string) {
    forall i :: 0 <= i < |s| ==> s[i] > ' ' && s[i] != '/' && s[i] != '\"'
  }

  lemma {:induction false} MinifySolid(s: string, k: string)
    requires Solid(s)
    ensures Minified(s + k) == s + Minified(k) && (Tidy(s + k) <==> Tidy(k))
  {
    if s == "" {
      assert s + k == k;
      assert s + Minified(k) == Minified(k);
    } else {
      MinifySolid(s[1..], k);
      assert (s + k)[1..] == s[1..] + k;
      assert s + Minified(k) == [s[0]] + (s[1..] + Minified(k));
    }
  }

  lemma {:induction false} MinifyUnits(us: seq<StringToken.Unit>, k: string)
    requires StringToken.AllWellFormed(us)
    ensures MinifiedString(StringToken.Emit(us, "\"" + k)) == StringToken.Emit(us, "\"" + Minified(k))
    ensures TidyString(StringToken.Emit(us, "\"" + k)) <==> Tidy(k)
  {
    if us == [] {
      assert ("\"" + k)[1..] == k;
    } else {
      MinifyUnits(us[1..], k);
      assert StringToken.WellFormed(us[0]);
      KeepUnit(us[0], StringToken.Emit(us[1..], "\"" + k));
    }
  }

  lemma KeepUnit(u: StringToken.Unit, t: string)
    requires StringToken.WellFormed(u)
    ensures MinifiedString(StringToken.UnitText(u) + t) == StringToken.UnitText(u) + MinifiedString(t)
    ensures TidyString(StringToken.UnitText(u) + t) <==> TidyString(t)
  {
    var s := StringToken.UnitText(u);
    match u
    case Plain(c) => assert (s + t)[1..] == t;
    case Escape(c) =>
      assert (s + t)[2..] == t;
      assert (s + t)[..2] == s;
    case Code(h) =>
      assert (s + t)[..2] == "\\u" && (s + t)[2..] == h + t;
      assert s + MinifiedString(t) == "\\u" + (h + MinifiedString(t));
      KeepOrdinary(h, t);
  }

  lemma {:induction false} KeepOrdinary(h: string, t: string)
    requires forall i :: 0 <= i < |h| ==> StringToken.Ordinary(h[i])
    ensures MinifiedString(h + t) == h + MinifiedString(t)
    ensures TidyString(h + t) <==> TidyString(t)
  {
    if h == "" {
      assert h + t == t;
      assert h + MinifiedString(t) == MinifiedString(t);
    } else {
      KeepOrdinary(h[1..], t);
      assert StringToken.Ordinary(h[0]);
      assert (h + t)[1..] == h[1..] + t;
      assert h + MinifiedString(t) == [h[0]] + (h[1..] + MinifiedString(t));
    }
  }

  lemma MinifyString(us: seq<StringToken.Unit>, k: string)
    requires StringToken.AllWellFormed(us)
    ensures Minified(EmitString(us, k)) == EmitString(us, Minified(k))
    ensures Tidy(EmitString(us, k)) <==> Tidy(k)
  {
    MinifyUnits(us, k);
    var t := StringToken.Emit(us, "\"" + k);
    assert ("\"" + t)[1..] == t;
  }

  lemma MinifyFigure(f: Figure, k: string)
    requires LenientFigure(f)
    ensures Minified(EmitFigure(f, k)) == EmitFigure(f, Minified(k))
    ensures Tidy(EmitFigure(f, k)) <==> Tidy(k)
  {
    var a, b := if f.minus then "-" else "", Parser.FractionText(f);
    var c := Parser.ExponentText(f);
    SolidFigure(f);
    MinifySolid(c, k);
    MinifySolid(b, c + k);
    MinifySolid(f.whole, b + (c + k));
    MinifySolid(a, f.whole + (b + (c + k)));
  }

  lemma SolidFigure(f: Figure)
    requires LenientFigure(f)
    ensures Solid(if f.minus then "-" else "") && Solid(f.whole)
    ensures Solid(Parser.FractionText(f)) && Solid(Parser.ExponentText(f))
  {
    assert forall i :: 0 <= i < |f.whole| ==> IsDigit(f.whole[i]);
    assert forall i :: 0 <= i < |f.fraction| ==> IsDigit(f.fraction[i]);
    assert forall i :: 0 <= i < |f.exponent| ==> IsDigit(f.exponent[i]);
  }

  /** A value loses the blanks and comments between its tokens and nothing else. */
  lemma {:induction false} MinifyEmit(c: Syntax, k: string)
    requires WellFormed(c, Commented)
    ensures Minified(Emit(c, k)) == Emit(Strip(c), Minified(k)) && (Tidy(Emit(c, k)) <==> Tidy(k))
    decreases c
  {
    match c
    case Word(w) => MinifySolid(if w.Null? then "null" else if w.False? then "false" else "true", k);
    case Figure(f) => MinifyFigure(f, k);
    case Quoted(us) => MinifyString(us, k);
    case Brackets(inner, es) =>
      MinifySolid("[", if es.NoElement? then inner + ("]" + k) else EmitElements(es, k));
      if es.NoElement? {
        MinifyGap(inner, "]" + k);
        MinifySolid("]", k);
        assert "" + ("]" + Minified(k)) == "]" + Minified(k);
      } else {
        MinifyElements(es, k);
      }
    case Braces(inner, es) =>
      MinifySolid("{", if es.NoEntry? then inner + ("}" + k) else EmitEntries(es, k));
      if es.NoEntry? {
        MinifyGap(inner, "}" + k);
        MinifySolid("}", k);
        assert "" + ("}" + Minified(k)) == "}" + Minified(k);
      } else {
        MinifyEntries(es, k);
      }
  }

  lemma {:induction false} MinifyElements(es: Elements, k: string)
    requires es.Element? && WellFormedElements(es, Commented)
    ensures Minified(EmitElements(es, k)) == EmitElements(StripElements(es), Minified(k))
    ensures Tidy(EmitElements(es, k)) <==> Tidy(k)
    decreases es
  {
    var more := if es.tail.NoElement? then "]" + k else "," + EmitElements(es.tail, k);
    MinifyGap(es.before, Emit(es.value, es.after + more));
    MinifyEmit(es.value, es.after + more);
    MinifyGap(es.after, more);
    hide Minified, Tidy, Emit, WellFormed, Strip;
    if es.tail.NoElement? {
      MinifySolid("]", k);
    } else {
      MinifyElements(es.tail, k);
      MinifySolid(",", EmitElements(es.tail, k));
    }
    WithoutBlanks(Strip(es.value), Minified(more));
  }

  lemma WithoutBlanks(c: Syntax, t: string)
    ensures "" + Emit(c, "" + t) == Emit(c, t)
  {
    assert "" + t == t;
  }

  lemma {:induction false} MinifyEntries(es: Entries, k: string)
    requires es.Entry? && WellFormedEntries(es, Commented)
    ensures Minified(EmitEntries(es, k)) == EmitEntries(StripEntries(es), Minified(k))
    ensures Tidy(EmitEntries(es, k)) <==> Tidy(k)
    decreases es, 1
  {
    var more := if es.tail.NoEntry? then "}" + k else "," + EmitEntries(es.tail, k);
    MinifyMore(es, more);
    hide Minified, Tidy, Emit, EmitString, WellFormed, Strip;
    if es.tail.NoEntry? {
      MinifySolid("}", k);
    } else {
      MinifyEntries(es.tail, k);
      MinifySolid(",", EmitEntries(es.tail, k));
    }
  }

  lemma MinifyMore(es: Entries, more: string)
    requires es.Entry? && WellFormedEntries(es, Commented)
    ensures var s := es.before + EmitString(es.key, es.beforeColon + (":" + (es.afterColon + Emit(es.value, es.after + more))));
      && Minified(s) == "" + EmitString(es.key, "" + (":" + ("" + Emit(Strip(es.value), "" + Minified(more)))))
      && (Tidy(s) <==> Tidy(more))
    decreases es, 0
  {
    MinifyKey(es, Emit(es.value, es.after + more));
    MinifyEmit(es.value, es.after + more);
    MinifyGap(es.after, more);
    assert "" + Minified(more) == Minified(more);
    hide Minified, Tidy, Emit, EmitString, WellFormed, Strip;
  }

  lemma MinifyKey(es: Entries, u: string)
    requires es.Entry? && WellFormedEntries(es, Commented)
    ensures var s := es.before + EmitString(es.key, es.beforeColon + (":" + (es.afterColon + u)));
      && Minified(s) == "" + EmitString(es.key, "" + (":" + ("" + Minified(u)))) && (Tidy(s) <==> Tidy(u))
  {
    hide Minified, Tidy, EmitString;
    var colon := ":" + (es.afterColon + u);
    MinifyGap(es.before, EmitString(es.key, es.beforeColon + colon));
    MinifyString(es.key, es.beforeColon + colon);
    MinifyGap(es.beforeColon, colon);
    MinifySolid(":", es.afterColon + u);
    MinifyGap(es.afterColon, u);
    assert "" + (":" + ("" + Minified(u))) == ":" + Minified(u);
  }

  // ---------- Main results ----------

  /** Minifying the formatted print gives the unformatted print, whatever the strings and keys hold. */
  lemma MinifyPrint(v: Json, depth: nat, depth': nat)
    requires Printable(v)
    ensures Minified(Printer.Print(v, depth, true)) == Printer.Print(v, depth', false)
  {
    var c := Printer.Layout(v, depth, true);
    Printer.LayoutMeans(v, depth, true);
    Printer.LayoutEmits(v, depth, true, "");
    Printer.LayoutEmits(v, depth', false, "");
    Printer.StripLayout(v, depth, true, depth');
    Relax(c, Commented);
    MinifyEmit(c, "");
    assert Printer.Print(v, depth, true) + "" == Printer.Print(v, depth, true);
    assert Printer.Print(v, depth', false) + "" == Printer.Print(v, depth', false);
  }

  /** A JSON text in the sense of RFC 8259, section 2: a value with what stands before and behind it. */
  function Text(before: string, c: Syntax, after: string): string {
    before + Emit(c, after)
  }

  /**
    On every JSON text, with comments between the tokens or not, the minifier is safe to run; what it leaves is parsed
    to the value of the text with nothing behind it; and it has no effect on its own result.
   */
  lemma MinifyKeepsMeaning(before: string, c: Syntax, after: string)
    requires BlanksAndComments(before) && WellFormed(c, Commented) && BlanksAndComments(after)
    ensures var s := Text(before, c, after);
      && Tidy(s)
      && Parser.ParseText(Minified(s), true) == Parser.Ok(Value(c), "")
      && Minified(Minified(s)) == Minified(s)
  {
    hide *;
    MinifyDocument(before, c, after);
    StripKeepsValue(c, Commented, Lenient);
    StripKeepsValue(c, Commented, Commented);
    NoGap();
    MinifyDocument("", Strip(c), "");
    ParseDocument("", Strip(c), "");
    Alone(Strip(c));
  }

  lemma NoGap()
    ensures BlanksAndComments("") && AllSkipped("")
  {
  }

  lemma Alone(c: Syntax)
    ensures Text("", c, "") == Emit(c, "")
  {
    assert "" + Emit(c, "") == Emit(c, "");
  }

  /** A text without comments is parsed to the same value before and after. */
  lemma MinifyKeepsParse(before: string, c: Syntax, after: string)
    requires IsBlank(before) && WellFormed(c, Rfc) && IsBlank(after)
    ensures var s := Text(before, c, after);
      Parser.ParseText(s, true) == Parser.ParseText(Minified(s), true) == Parser.Ok(Value(c), "")
  {
    hide *;
    Relax(c, Lenient);
    Relax(c, Commented);
    GapOf(before);
    GapOf(after);
    MinifyKeepsMeaning(before, c, after);
    ParseDocument(before, c, after);
  }

  lemma GapOf(ws: string)
    requires IsBlank(ws)
    ensures AllSkipped(ws) && BlanksAndComments(ws)
  {
    RelaxGap(ws, Lenient);
    RelaxGap(ws, Commented);
  }

  lemma MinifyDocument(before: string, c: Syntax, after: string)
    requires BlanksAndComments(before) && WellFormed(c, Commented) && BlanksAndComments(after)
    ensures Minified(Text(before, c, after)) == Emit(Strip(c), "") && Tidy(Text(before, c, after))
  {
    hide Emit, Strip, WellFormed, BlanksAndComments;
    MinifyGap(before, Emit(c, after));
    MinifyEmit(c, after);
    MinifyGap(after, "");
    assert after + "" == after;
  }

  lemma ParseDocument(before: string, c: Syntax, after: string)
    requires AllSkipped(before) && WellFormed(c, Lenient) && AllSkipped(after)
    ensures Parser.ParseText(Text(before, c, after), true) == Parser.Ok(Value(c), "")
  {
    hide Emit, Value, WellFormed, Parser.ParseValue;
    Parser.EmitHead(c, after);
    SkipBlank(before, Emit(c, after));
    SkipBlank(after, "");
    assert after + "" == after;
    if after != "" {
      assert Skipped(after[0]);
    }
    Parser.StopsEnds(c, after);
    Parser.ParseEmit(c, after);
  }
}
