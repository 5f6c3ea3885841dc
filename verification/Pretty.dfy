/** The formatted text, byte by byte: which blanks stand where. */
module Pretty {
  import opened CString
  import opened Json
  import opened Printer
  import opened Sequences
  import StringToken

  /** How many tabs the text starts with. */
  function TabCount(s: string): (n: nat)
    ensures n <= |s| && (forall i :: 0 <= i < n ==> s[i] == '\t') && Head(s[n..]) != '\t'
  {
    if Head(s) == '\t' then
      var n := TabCount(s[1..]);
      assert s[1..][n..] == s[n + 1..];
      n + 1
    else 0
  }

  /** The text from the first byte on that is no tab. */
  function AfterTabs(s: string): (r: string)
    ensures |r| <= |s|
  {
    s[TabCount(s)..]
  }

  /** A new line with this many tabs, and then this byte. */
  predicate NewLine(s: string, tabs: nat, c: char) {
    Head(s) == '\n' && TabCount(s[1..]) == tabs && Head(AfterTabs(s[1..])) == c
  }

  /**
    The text is laid out as formatted text is, where `open` are the brackets and braces that are open: one tab behind a
    colon; one space behind a comma in brackets; a new line with as many tabs as brackets and braces are open behind a
    comma in braces and behind an opening brace, and one with a tab less before the closing brace, or with two tabs
    less if nothing stands in the braces; and no other blank outside strings.
   */
  predicate LaidOut(s: string, open: string)
    decreases |s|, 1
  {
    if s == "" then open == ""
    else if s[0] == '\"' then InString(s[1..], open)
    else if s[0] == '[' then LaidOut(s[1..], open + "[")
    else if s[0] == ']' then Inner(open) == '[' && LaidOut(s[1..], Outer(open))
    else if s[0] == '{' then
      if NewLine(s[1..], |open| + 1, '\"') then LaidOut(AfterTabs(s[2..]), open + "{")
      else NewLine(s[1..], if open == "" then 0 else |open| - 1, '}') && LaidOut(AfterTabs(s[2..])[1..], open)
    else if s[0] == ',' && Inner(open) == '[' then Head(s[1..]) == ' ' && LaidOut(s[2..], open)
    else if s[0] == ',' then
      Inner(open) == '{' && NewLine(s[1..], |open|, '\"') && LaidOut(AfterTabs(s[2..]), open)
    else if s[0] == '\n' then
      Inner(open) == '{' && NewLine(s, |open| - 1, '}') && LaidOut(AfterTabs(s[1..])[1..], Outer(open))
    else if s[0] == ':' then Head(s[1..]) == '\t' && LaidOut(s[2..], open)
    else s[0] > ' ' && s[0] != '}' && LaidOut(s[1..], open)
  }

  function Inner(open: string): (c: char)
    ensures c != '\0' ==> open != ""
  {
    if open == "" then '\0' else open[|open| - 1]
  }

  function Outer(open: string): string
    requires open != ""
  {
    open[..|open| - 1]
  }

  /** Inside a string, up to its closing quote. */
  predicate InString(s: string, open: string)
    decreases |s|, 0
  {
    s != "" &&
    if s[0] == '\"' then LaidOut(s[1..], open)
    else if s[0] == '\\' then |s| > 1 && InString(s[2..], open)
    else InString(s[1..], open)
  }

  // ---------- Tabs, words, numbers and strings ----------

  lemma TabsCounted(n: nat, t: string)
    requires Head(t) != '\t'
    ensures TabCount(Tabs(n) + t) == n && AfterTabs(Tabs(n) + t) == t
  {
    var s := Tabs(n) + t;
    var m := TabCount(s);
    assert s[n..] == t;
    assert forall i :: 0 <= i < n ==> s[i] == '\t';
    assert n < |s| ==> s[n] == Head(t);
    assert m < |s| ==> s[m] == Head(s[m..]);
    assert m == n;
  }

  /** A line break with its tabs, before a byte that is no tab. */
  lemma LineBreak(n: nat, t: string)
    requires Head(t) != '\t'
    ensures var s := "\n" + (Tabs(n) + t);
      s[1..] == Tabs(n) + t && AfterTabs(s[1..]) == t && NewLine(s, n, Head(t))
  {
    var s := "\n" + (Tabs(n) + t);
    assert s[1..] == Tabs(n) + t;
    TabsCounted(n, t);
    hide TabCount, Tabs;
  }

  /** Bytes that lay nothing out. */
  predicate Solid(s: string) {
    forall i :: 0 <= i < |s| ==> s[i] == '-' || '0' <= s[i] <= '9' || 'a' <= s[i] <= 'z'
  }

  lemma {:induction false} SolidLaid(s: string, k: string, open: string)
    requires Solid(s)
    ensures LaidOut(s + k, open) <==> LaidOut(k, open)
    decreases |s|
  {
    if s == "" {
      assert s + k == k;
    } else {
      SolidLaid(s[1..], k, open);
      SolidByte(s[0], s[1..] + k, open);
      assert s + k == [s[0]] + (s[1..] + k);
    }
  }

  lemma SolidByte(c: char, t: string, open: string)
    requires Solid([c])
    ensures LaidOut([c] + t, open) <==> LaidOut(t, open)
  {
    assert [c][0] == c;
    assert ([c] + t)[1..] == t;
  }

  lemma SignedSolid(n: int)
    ensures Solid(Signed(n))
  {
    var d := Numeral(if n < 0 then -n else n);
    assert forall i :: 0 <= i < |d| ==> IsDigit(d[i]);
    hide Numeral;
  }

  lemma {:induction false} OrdinaryIn(h: string, t: string, open: string)
    requires forall i :: 0 <= i < |h| ==> h[i] != '\"' && h[i] != '\\'
    ensures InString(h + t, open) <==> InString(t, open)
  {
    if h == "" {
      assert h + t == t;
    } else {
      OrdinaryIn(h[1..], t, open);
      assert (h + t)[1..] == h[1..] + t && (h + t)[0] == h[0];
    }
  }

  lemma UnitIn(u: StringToken.Unit, t: string, open: string)
    requires StringToken.Conforms(u)
    ensures InString(StringToken.UnitText(u) + t, open) <==> InString(t, open)
  {
    match u
    case Plain(c) => assert ([c] + t)[1..] == t;
    case Escape(c) => EscapeIn(c, t, open);
    case Code(h) =>
      assert forall i :: 0 <= i < |h| ==> StringToken.IsHex(h[i]);
      OrdinaryIn(h, t, open);
      EscapeIn('u', h + t, open);
      assert "\\u" + h + t == ['\\', 'u'] + (h + t);
  }

  lemma EscapeIn(c: char, t: string, open: string)
    ensures InString(['\\', c] + t, open) <==> InString(t, open)
  {
    assert (['\\', c] + t)[2..] == t;
  }

  lemma {:induction false} UnitsIn(us: seq<StringToken.Unit>, k: string, open: string)
    requires StringToken.AllConform(us)
    ensures InString(StringToken.Emit(us, "\"" + k), open) <==> LaidOut(k, open)
    decreases |us|
  {
    if us == [] {
      assert ("\"" + k)[1..] == k;
    } else {
      assert StringToken.Conforms(us[0]);
      UnitsIn(us[1..], k, open);
      UnitIn(us[0], StringToken.Emit(us[1..], "\"" + k), open);
      hide InString, LaidOut, StringToken.Conforms, StringToken.UnitText;
    }
  }

  lemma QuoteLaid(s: string, k: string, open: string)
    requires '\0' !in s
    ensures LaidOut(StringToken.Quote(s) + k, open) <==> LaidOut(k, open)
    ensures Head(StringToken.Quote(s) + k) == '\"'
  {
    hide StringToken.EscapedAll, StringToken.AllConform, StringToken.Meaning;
    StringToken.MeaningOfEscaped(s);
    var us := StringToken.EscapedAll(s);
    EmitQuote(s, k);
    UnitsIn(us, k, open);
    var t := StringToken.Emit(us, "\"" + k);
    assert ("\"" + t)[1..] == t;
  }

  // ---------- Values ----------

  /** Formatted text is laid out, at any depth and whatever follows it. */
  lemma {:induction false} ValueLaid(v: Json, open: string, k: string)
    requires Printable(v)
    ensures LaidOut(Print(v, |open|, true) + k, open) <==> LaidOut(k, open)
    decreases v, 0
  {
    hide LaidOut, Solid, Signed, StringToken.Quote;
    Words();
    match v
    case Null => SolidLaid("null", k, open);
    case False => SolidLaid("false", k, open);
    case True => SolidLaid("true", k, open);
    case Number(m, _) =>
      SignedSolid(m);
      SolidLaid(Signed(m), k, open);
    case String(s) => QuoteLaid(s, k, open);
    case Array(items) =>
      ItemsLaid(items, 0, open + "[", k);
      OpenBracket(PrintItems(items, 0, |open| + 1, true), open, k);
    case Object(members) =>
      if members == [] {
        EmptyBraces(open, k);
      } else {
        PrintableMember(members, 0);
        MembersLaid(members, 0, open + "{", k);
        OpenBraces(members, open, k);
      }
  }

  lemma Words()
    ensures Solid("null") && Solid("false") && Solid("true")
  {
  }

  lemma OpenBracket(p: string, open: string, k: string)
    ensures LaidOut("[" + (p + "]") + k, open) <==> LaidOut(p + ("]" + k), open + "[")
    ensures Outer(open + "[") == open
  {
    var s := "[" + (p + "]") + k;
    assert s[1..] == p + ("]" + k);
  }

  lemma {:induction false} ItemsLaid(items: seq<Json>, i: nat, open: string, k: string)
    requires i <= |items| && Printable(Array(items)) && Inner(open) == '['
    ensures LaidOut(PrintItems(items, i, |open|, true) + ("]" + k), open) <==> LaidOut(k, Outer(open))
    decreases items, |items| - i
  {
    hide LaidOut, Print, Printable, Inner, Outer;
    if i == |items| {
      CloseBracket(open, k);
      assert "" + ("]" + k) == "]" + k;
    } else {
      PrintableItem(items, i);
      var p, end, more := Print(items[i], |open|, true), ItemEnd(i + 1 == |items|, true), PrintItems(items, i + 1, |open|, true);
      ValueLaid(items[i], open, end + (more + ("]" + k)));
      ThreeParts(p, end, more, "]" + k);
      ItemsLaid(items, i + 1, open, k);
      if i + 1 < |items| {
        CommaInBrackets(more + ("]" + k), open);
      } else {
        assert end + (more + ("]" + k)) == more + ("]" + k);
      }
    }
  }

  lemma ThreeParts(a: string, b: string, c: string, k: string)
    ensures a + (b + c) + k == a + (b + (c + k))
  {
    Regroup(a, b + c, k);
    Regroup(b, c, k);
  }

  lemma CloseBracket(open: string, k: string)
    requires Inner(open) == '['
    ensures LaidOut("]" + k, open) <==> LaidOut(k, Outer(open))
  {
    assert ("]" + k)[1..] == k;
  }

  lemma CommaInBrackets(t: string, open: string)
    requires Inner(open) == '['
    ensures LaidOut(", " + t, open) <==> LaidOut(t, open)
  {
    var s := ", " + t;
    assert s[1..] == " " + t && s[2..] == t;
  }

  // ---------- Objects ----------

  /** The bytes from the key of a member on, with the end of the object. */
  function FromKey(members: seq<Member>, i: nat, depth: nat, k: string): string
    requires i < |members| && depth > 0
  {
    StringToken.Quote(members[i].key) + (":\t" + (Print(members[i].value, depth, true) +
      (MemberEnd(i + 1 == |members|, true) + (PrintMembers(members, i + 1, depth, true) + (Tabs(depth - 1) + ("}" + k))))))
  }

  lemma MembersText(members: seq<Member>, i: nat, depth: nat, k: string)
    requires i < |members| && depth > 0
    ensures PrintMembers(members, i, depth, true) + (Tabs(depth - 1) + ("}" + k)) == Tabs(depth) + FromKey(members, i, depth, k)
  {
    hide StringToken.Quote, Print, Tabs, MemberEnd;
    var q, p, e := StringToken.Quote(members[i].key), Print(members[i].value, depth, true), MemberEnd(i + 1 == |members|, true);
    var more, close := PrintMembers(members, i + 1, depth, true), Tabs(depth - 1) + ("}" + k);
    Regroup(Tabs(depth) + (q + ":\t"), p + (e + more), close);
    ThreeParts(p, e, more, close);
    Regroup(Tabs(depth), q + ":\t", p + (e + (more + close)));
    Regroup(q, ":\t", p + (e + (more + close)));
  }

  lemma EmptyBraces(open: string, k: string)
    ensures LaidOut(Print(Object([]), |open|, true) + k, open) <==> LaidOut(k, open)
  {
    hide LaidOut, NewLine, AfterTabs, Tabs;
    var n := if |open| > 0 then |open| - 1 else 0;
    var b := "\n" + (Tabs(n) + ("}" + k));
    assert Print(Object([]), |open|, true) + k == "{" + b;
    LineBreak(n, "}" + k);
    EmptyBracesUnfolded(b, open);
    assert ("}" + k)[1..] == k;
  }

  lemma EmptyBracesUnfolded(b: string, open: string)
    requires NewLine(b, if open == "" then 0 else |open| - 1, '}') && AfterTabs(b[1..]) != ""
    ensures LaidOut("{" + b, open) <==> LaidOut(AfterTabs(b[1..])[1..], open)
  {
    assert ("{" + b)[1..] == b && ("{" + b)[2..] == b[1..];
    hide AfterTabs, TabCount;
  }

  lemma OpenBraces(members: seq<Member>, open: string, k: string)
    requires Printable(Object(members)) && members != [] && '\0' !in members[0].key
    ensures LaidOut(Print(Object(members), |open|, true) + k, open) <==>
      LaidOut(FromKey(members, 0, |open| + 1, k), open + "{")
    ensures Outer(open + "{") == open && Inner(open + "{") == '{'
  {
    hide Print, PrintMembers, FromKey, Printable;
    var p, t := PrintMembers(members, 0, |open| + 1, true), FromKey(members, 0, |open| + 1, k);
    OpenObject(members, |open|, true);
    MembersText(members, 0, |open| + 1, k);
    KeyFirst(members, 0, |open| + 1, k);
    var s := Print(Object(members), |open|, true) + k;
    assert s == "{\n" + (p + (Tabs(|open|) + "}")) + k;
    BraceText(p, Tabs(|open|), k);
    BraceLaid(t, open);
  }

  lemma BraceText(p: string, tabs: string, k: string)
    ensures "{\n" + (p + (tabs + "}")) + k == "{\n" + (p + (tabs + ("}" + k)))
  {
    Regroup("{\n", p + (tabs + "}"), k);
    ThreeParts(p, tabs, "}", k);
  }

  lemma KeyFirst(members: seq<Member>, i: nat, depth: nat, k: string)
    requires i < |members| && depth > 0 && '\0' !in members[i].key
    ensures Head(FromKey(members, i, depth, k)) == '\"'
  {
  }

  lemma BraceLaid(t: string, open: string)
    requires Head(t) == '\"'
    ensures LaidOut("{\n" + (Tabs(|open| + 1) + t), open) <==> LaidOut(t, open + "{")
  {
    hide LaidOut, NewLine, AfterTabs, Tabs;
    var b := "\n" + (Tabs(|open| + 1) + t);
    LineBreak(|open| + 1, t);
    BraceUnfolded(b, open);
    assert "{" + b == "{\n" + (Tabs(|open| + 1) + t);
  }

  lemma BraceUnfolded(b: string, open: string)
    requires b != "" && NewLine(b, |open| + 1, '\"')
    ensures LaidOut("{" + b, open) <==> LaidOut(AfterTabs(b[1..]), open + "{")
  {
    assert ("{" + b)[1..] == b && ("{" + b)[2..] == b[1..];
    hide AfterTabs, TabCount, NewLine;
  }

  lemma {:induction false} MembersLaid(members: seq<Member>, i: nat, open: string, k: string)
    requires i < |members| && Printable(Object(members)) && Inner(open) == '{'
    ensures LaidOut(FromKey(members, i, |open|, k), open) <==> LaidOut(k, Outer(open))
    decreases members, |members| - i
  {
    hide LaidOut, Print, PrintMembers, Printable, Outer, StringToken.Quote, MemberEnd, Tabs;
    PrintableMember(members, i);
    var m, depth := members[i], |open|;
    var end := MemberEnd(i + 1 == |members|, true) + (PrintMembers(members, i + 1, depth, true) + (Tabs(depth - 1) + ("}" + k)));
    var value := Print(m.value, depth, true) + end;
    QuoteLaid(m.key, ":\t" + value, open);
    ColonLaid(value, open);
    ValueLaid(m.value, open, end);
    if i + 1 < |members| {
      PrintableMember(members, i + 1);
      MembersText(members, i + 1, depth, k);
      KeyFirst(members, i + 1, depth, k);
      MembersLaid(members, i + 1, open, k);
      CommaInBraces(FromKey(members, i + 1, depth, k), open);
    } else {
      LastMember(members, depth, k);
      CloseBraces(open, k);
    }
  }

  lemma ColonLaid(t: string, open: string)
    ensures LaidOut(":\t" + t, open) <==> LaidOut(t, open)
  {
    var s := ":\t" + t;
    assert s[1..] == "\t" + t && s[2..] == t;
  }

  lemma CommaInBraces(t: string, open: string)
    requires Inner(open) == '{' && Head(t) == '\"'
    ensures LaidOut(MemberEnd(false, true) + (Tabs(|open|) + t), open) <==> LaidOut(t, open)
  {
    hide LaidOut, NewLine, AfterTabs, Tabs;
    var b := "\n" + (Tabs(|open|) + t);
    LineBreak(|open|, t);
    CommaUnfolded(b, open);
    assert "," + b == MemberEnd(false, true) + (Tabs(|open|) + t);
  }

  lemma CommaUnfolded(b: string, open: string)
    requires Inner(open) == '{' && b != "" && NewLine(b, |open|, '\"')
    ensures LaidOut("," + b, open) <==> LaidOut(AfterTabs(b[1..]), open)
  {
    hide AfterTabs, TabCount, NewLine, Inner, InString, Head;
    var s := "," + b;
    assert s[0] == ',' && s[1..] == b && s[2..] == b[1..];
  }

  lemma LastMember(members: seq<Member>, depth: nat, k: string)
    requires depth > 0
    ensures MemberEnd(true, true) + (PrintMembers(members, |members|, depth, true) + (Tabs(depth - 1) + ("}" + k))) ==
      "\n" + (Tabs(depth - 1) + ("}" + k))
  {
    assert "" + (Tabs(depth - 1) + ("}" + k)) == Tabs(depth - 1) + ("}" + k);
    assert "" + "\n" == "\n";
  }

  lemma CloseBraces(open: string, k: string)
    requires Inner(open) == '{'
    ensures LaidOut("\n" + (Tabs(|open| - 1) + ("}" + k)), open) <==> LaidOut(k, Outer(open))
  {
    hide Tabs, TabCount, NewLine, AfterTabs;
    LineBreak(|open| - 1, "}" + k);
    assert ("}" + k)[1..] == k;
  }

  /** A formatted document is laid out from its first byte to its last. */
  lemma DocumentLaid(v: Json)
    requires Printable(v)
    ensures LaidOut(Print(v, 0, true), "")
  {
    hide Print;
    ValueLaid(v, "", "");
    assert Print(v, 0, true) + "" == Print(v, 0, true);
  }
}
