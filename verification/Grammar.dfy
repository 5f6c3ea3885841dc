/** Concrete syntax of JSON texts (RFC 8259, sections 2 to 7). */
module Grammar {
  import opened CString
  import opened Json
  import StringToken

  /** A value as it is spelled in a text. Blanks are kept next to the structural character they surround. */
  datatype Syntax =
    | Word(word: Json)
    | Figure(figure: Figure)
    | Quoted(units: seq<StringToken.Unit>)
    | Brackets(inner: string, elements: Elements)
    | Braces(inner: string, entries: Entries)

  datatype Elements = NoElement | Element(before: string, value: Syntax, after: string, tail: Elements)

  datatype Entries =
    | NoEntry
    | Entry(before: string, key: seq<StringToken.Unit>, beforeColon: string, afterColon: string, value: Syntax,
            after: string, tail: Entries)

  /**
    Section 6: minus, integer digits, fraction digits and exponent. An absent fraction has no digits, and an absent
    exponent has no `e`.
   */
  datatype Figure = Parts(minus: bool, whole: string, fraction: string, e: char, sign: string, exponent: string)

  const NO_E := '\0'

  /**
    How texts may be spelled: as RFC 8259 says; with what the parser accepts beyond that; or so, with comments between
    the tokens.
   */
  datatype Style = Rfc | Lenient | Commented

  predicate AllDigits(d: string) {
    forall i :: 0 <= i < |d| ==> IsDigit(d[i])
  }

  predicate IsE(c: char) {
    c == 'e' || c == 'E'
  }

  predicate IsSign(s: string) {
    s == "" || s == "+" || s == "-"
  }

  predicate RfcFigure(f: Figure) {
    && f.whole != "" && AllDigits(f.whole) && (f.whole[0] == '0' ==> f.whole == "0")
    && AllDigits(f.fraction) && AllDigits(f.exponent) && IsSign(f.sign)
    && (if IsE(f.e) then f.exponent != "" else f.e == NO_E && f.sign == "" && f.exponent == "")
  }

  /** One leading zero is accepted, no digit behind a minus, and an exponent without digits. */
  predicate LenientFigure(f: Figure) {
    && AllDigits(f.whole) && (f.whole == "" ==> f.minus) && (|f.whole| > 1 && f.whole[0] == '0' ==> f.whole[1] != '0')
    && AllDigits(f.fraction) && AllDigits(f.exponent) && IsSign(f.sign)
    && (IsE(f.e) || (f.e == NO_E && f.sign == "" && f.exponent == ""))
  }

  predicate WellFormedFigure(f: Figure, style: Style) {
    if style.Rfc? then RfcFigure(f) else LenientFigure(f)
  }

  predicate WellFormedToken(us: seq<StringToken.Unit>, style: Style) {
    if style.Rfc? then StringToken.AllConform(us) else StringToken.AllWellFormed(us)
  }

  /** What may stand between two tokens. */
  predicate Gap(ws: string, style: Style) {
    match style
    case Rfc => IsBlank(ws)
    case Lenient => AllSkipped(ws)
    case Commented => BlanksAndComments(ws)
  }

  predicate BlanksAndComments(ws: string) {
    || ws == ""
    || (BlankChar(ws[0]) && BlanksAndComments(ws[1..]))
    || exists n :: 0 < n <= |ws| && IsComment(ws[..n]) && BlanksAndComments(ws[n..])
  }

  /** A comment to the end of a line, or one that the first asterisk and slash behind its first byte close. */
  predicate IsComment(c: string) {
    && |c| >= 3 && c[0] == '/' && '\0' !in c
    && if c[1] == '/' then '\n' !in c[..|c| - 1] && c[|c| - 1] == '\n'
       else c[1] == '*' && Closes(c, |c| - 2) && forall i :: 0 < i < |c| - 2 ==> !Closes(c, i)
  }

  predicate Closes(c: string, i: nat) {
    i + 1 < |c| && c[i] == '*' && c[i + 1] == '/'
  }

  predicate WellFormed(c: Syntax, style: Style) {
    match c
    case Word(w) => w.Null? || w.False? || w.True?
    case Figure(f) => WellFormedFigure(f, style)
    case Quoted(us) => WellFormedToken(us, style)
    case Brackets(inner, es) => Gap(inner, style) && WellFormedElements(es, style)
    case Braces(inner, es) => Gap(inner, style) && WellFormedEntries(es, style)
  }

  predicate WellFormedElements(es: Elements, style: Style) {
    es.NoElement? ||
    (Gap(es.before, style) && WellFormed(es.value, style) && Gap(es.after, style) && WellFormedElements(es.tail, style))
  }

  predicate WellFormedEntries(es: Entries, style: Style) {
    es.NoEntry? ||
    (&& Gap(es.before, style) && WellFormedToken(es.key, style) && Gap(es.beforeColon, style)
     && Gap(es.afterColon, style) && WellFormed(es.value, style) && Gap(es.after, style)
     && WellFormedEntries(es.tail, style))
  }

  /** What RFC 8259 allows is allowed in every style. */
  lemma {:induction false} Relax(c: Syntax, style: Style)
    requires WellFormed(c, Rfc)
    ensures WellFormed(c, style)
  {
    match c
    case Word(w) =>
    case Figure(f) =>
    case Quoted(us) => StringToken.ConformingAccepted(us);
    case Brackets(inner, es) =>
      RelaxGap(inner, style);
      RelaxElements(es, style);
    case Braces(inner, es) =>
      RelaxGap(inner, style);
      RelaxEntries(es, style);
  }

  lemma {:induction false} RelaxElements(es: Elements, style: Style)
    requires WellFormedElements(es, Rfc)
    ensures WellFormedElements(es, style)
  {
    if es.Element? {
      RelaxGap(es.before, style);
      RelaxGap(es.after, style);
      Relax(es.value, style);
      RelaxElements(es.tail, style);
    }
  }

  lemma {:induction false} RelaxEntries(es: Entries, style: Style)
    requires WellFormedEntries(es, Rfc)
    ensures WellFormedEntries(es, style)
  {
    if es.Entry? {
      StringToken.ConformingAccepted(es.key);
      RelaxGap(es.before, style);
      RelaxGap(es.beforeColon, style);
      RelaxGap(es.afterColon, style);
      RelaxGap(es.after, style);
      Relax(es.value, style);
      RelaxEntries(es.tail, style);
    }
  }

  lemma {:induction false} RelaxGap(ws: string, style: Style)
    requires IsBlank(ws)
    ensures Gap(ws, style)
  {
    forall i | 0 <= i < |ws|
      ensures Skipped(ws[i])
    {
      assert BlankChar(ws[i]);
    }
    if ws != "" {
      assert BlankChar(ws[0]);
      RelaxGap(ws[1..], style);
    }
  }

  // ---------- Text ----------

  function EmitFigure(f: Figure, k: string): string {
    (if f.minus then "-" else "") + (f.whole +
    ((if f.fraction == "" then "" else "." + f.fraction) +
    ((if IsE(f.e) then [f.e] + (f.sign + f.exponent) else "") + k)))
  }

  /** The text of the token, followed by `k`. */
  function EmitString(us: seq<StringToken.Unit>, k: string): string {
    "\"" + StringToken.Emit(us, "\"" + k)
  }

  /** The text of the value, followed by `k`. */
  function Emit(c: Syntax, k: string): string {
    match c
    case Word(w) => (if w.Null? then "null" else if w.False? then "false" else "true") + k
    case Figure(f) => EmitFigure(f, k)
    case Quoted(us) => EmitString(us, k)
    case Brackets(inner, es) => "[" + (if es.NoElement? then inner + ("]" + k) else EmitElements(es, k))
    case Braces(inner, es) => "{" + (if es.NoEntry? then inner + ("}" + k) else EmitEntries(es, k))
  }

  function EmitElements(es: Elements, k: string): string
    requires es.Element?
  {
    es.before + Emit(es.value, es.after + if es.tail.NoElement? then "]" + k else "," + EmitElements(es.tail, k))
  }

  function EmitEntries(es: Entries, k: string): string
    requires es.Entry?
  {
    es.before + EmitString(es.key, es.beforeColon + (":" + (es.afterColon + Emit(es.value,
      es.after + if es.tail.NoEntry? then "}" + k else "," + EmitEntries(es.tail, k)))))
  }

  // ---------- Meaning ----------

  function FigureValue(f: Figure): Json {
    NumberOf(f.minus, f.whole, f.fraction, ExponentValue(f))
  }

  function ExponentValue(f: Figure): int {
    SignedDecimal(f.sign, f.exponent)
  }

  function SignedDecimal(sign: string, d: string): int {
    var x: int := Decimal(d);
    if sign == "-" then -x else x
  }

  function NumberOf(minus: bool, whole: string, fraction: string, exponent: int): Json {
    var m: int := Decimal(whole + fraction);
    Number(if minus then -m else m, exponent - |fraction|)
  }

  function Value(c: Syntax): Json {
    match c
    case Word(w) => w
    case Figure(f) => FigureValue(f)
    case Quoted(us) => String(StringToken.Meaning(us))
    case Brackets(_, es) => Array(ElementValues(es))
    case Braces(_, es) => Object(EntryValues(es))
  }

  function ElementValues(es: Elements): seq<Json> {
    if es.NoElement? then [] else [Value(es.value)] + ElementValues(es.tail)
  }

  function EntryValues(es: Entries): seq<Member> {
    if es.NoEntry? then []
    else [Member(StringToken.Meaning(es.key), Value(es.value))] + EntryValues(es.tail)
  }

  // ---------- Without blanks and comments ----------

  function Strip(c: Syntax): Syntax {
    match c
    case Brackets(_, es) => Brackets("", StripElements(es))
    case Braces(_, es) => Braces("", StripEntries(es))
    case _ => c
  }

  function StripElements(es: Elements): Elements {
    if es.NoElement? then es else Element("", Strip(es.value), "", StripElements(es.tail))
  }

  function StripEntries(es: Entries): Entries {
    if es.NoEntry? then es else Entry("", es.key, "", "", Strip(es.value), "", StripEntries(es.tail))
  }

  /** What is left is well formed in every style that allows the tokens of the text. */
  lemma {:induction false} StripKeepsValue(c: Syntax, style: Style, style': Style)
    requires WellFormed(c, style) && (style'.Rfc? ==> style.Rfc?)
    ensures WellFormed(Strip(c), style') && Value(Strip(c)) == Value(c)
    ensures Strip(Strip(c)) == Strip(c)
  {
    match c
    case Word(_) =>
    case Figure(_) =>
    case Quoted(us) => KeepToken(us, style, style');
    case Brackets(_, es) => StripKeepsElements(es, style, style');
    case Braces(_, es) => StripKeepsEntries(es, style, style');
  }

  lemma KeepToken(us: seq<StringToken.Unit>, style: Style, style': Style)
    requires WellFormedToken(us, style) && (style'.Rfc? ==> style.Rfc?)
    ensures WellFormedToken(us, style')
  {
    if style.Rfc? {
      StringToken.ConformingAccepted(us);
    }
  }

  lemma {:induction false} StripKeepsElements(es: Elements, style: Style, style': Style)
    requires WellFormedElements(es, style) && (style'.Rfc? ==> style.Rfc?)
    ensures WellFormedElements(StripElements(es), style') && ElementValues(StripElements(es)) == ElementValues(es)
    ensures StripElements(StripElements(es)) == StripElements(es)
  {
    if es.Element? {
      StripKeepsValue(es.value, style, style');
      StripKeepsElements(es.tail, style, style');
    }
  }

  lemma {:induction false} StripKeepsEntries(es: Entries, style: Style, style': Style)
    requires WellFormedEntries(es, style) && (style'.Rfc? ==> style.Rfc?)
    ensures WellFormedEntries(StripEntries(es), style') && EntryValues(StripEntries(es)) == EntryValues(es)
    ensures StripEntries(StripEntries(es)) == StripEntries(es)
  {
    if es.Entry? {
      KeepToken(es.key, style, style');
      StripKeepsValue(es.value, style, style');
      StripKeepsEntries(es.tail, style, style');
    }
  }
}
