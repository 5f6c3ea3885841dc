/** The text that cJSON prints for a value, and its two inverses: parsing, and minifying the formatted form. */
module Printer {
  import opened CString
  import opened Json
  import opened Grammar
  import opened Sequences
  import Parser
  import StringToken

  function Tabs(n: nat): (s: string)
    ensures |s| == n
  {
    seq(n, _ => '\t')
  }

  /** `fmt` selects the formatted text; `depth` counts the enclosing containers. */
  function Print(v: Json, depth: nat, fmt: bool): string
    decreases v, 0
  {
    match v
    case Null => "null"
    case False => "false"
    case True => "true"
    case Number(m, _) => Signed(m)
    case String(s) => StringToken.Quote(s)
    case Array(items) => "[" + (PrintItems(items, 0, depth + 1, fmt) + "]")
    case Object(members) =>
      if members == [] then
        "{" + ((if fmt then "\n" + Tabs(if depth > 0 then depth - 1 else 0) else "") + "}")
      else
        "{" + ((if fmt then "\n" else "") +
          (PrintMembers(members, 0, depth + 1, fmt) + ((if fmt then Tabs(depth) else "") + "}")))
  }

  /** The items from `i` on, each but the last with its separator. */
  function PrintItems(items: seq<Json>, i: nat, depth: nat, fmt: bool): string
    requires i <= |items|
    decreases items, |items| - i
  {
    if i == |items| then
      ""
    else
      Print(items[i], depth, fmt) + (ItemEnd(i + 1 == |items|, fmt) + PrintItems(items, i + 1, depth, fmt))
  }

  function ItemEnd(last: bool, fmt: bool): string {
    if last then "" else if fmt then ", " else ","
  }

  /** The members from `i` on, in the formatted text one to a line. */
  function PrintMembers(members: seq<Member>, i: nat, depth: nat, fmt: bool): string
    requires i <= |members|
    decreases members, |members| - i
  {
    if i == |members| then
      ""
    else
      MemberStart(members[i].key, depth, fmt) + (Print(members[i].value, depth, fmt) +
        (MemberEnd(i + 1 == |members|, fmt) + PrintMembers(members, i + 1, depth, fmt)))
  }

  function MemberStart(key: string, depth: nat, fmt: bool): string {
    (if fmt then Tabs(depth) else "") + (StringToken.Quote(key) + (if fmt then ":\t" else ":"))
  }

  function MemberEnd(last: bool, fmt: bool): string {
    (if last then "" else ",") + (if fmt then "\n" else "")
  }

  /** An object with members, as it is printed piece by piece. */
  lemma OpenObject(members: seq<Member>, depth: nat, fmt: bool)
    requires members != []
    ensures Print(Object(members), depth, fmt) == (if fmt then "{\n" else "{") +
      (PrintMembers(members, 0, depth + 1, fmt) + ((if fmt then Tabs(depth) else "") + "}"))
  {
    hide PrintMembers;
    Regroup("{", if fmt then "\n" else "",
      PrintMembers(members, 0, depth + 1, fmt) + ((if fmt then Tabs(depth) else "") + "}"));
  }

  // ---------- Printed text holds no terminator ----------

  predicate NoNul(s: string) {
    forall i :: 0 <= i < |s| ==> s[i] != '\0'
  }

  lemma {:induction false} EmitNoNul(us: seq<StringToken.Unit>)
    requires forall i :: 0 <= i < |us| ==> NoNul(StringToken.UnitText(us[i]))
    ensures NoNul(StringToken.Emit(us, "\""))
  {
    if us != [] {
      EmitNoNul(us[1..]);
    }
  }

  lemma QuoteNoNul(s: string)
    requires '\0' !in s
    ensures NoNul(StringToken.Quote(s))
  {
    EmitNoNul(StringToken.EscapedAll(s));
  }

  lemma {:induction false} PrintNoNul(v: Json, depth: nat, fmt: bool)
    requires Printable(v)
    ensures NoNul(Print(v, depth, fmt))
    decreases v, 0
  {
    hide PrintItems, PrintMembers, StringToken.Quote, Numeral;
    match v
    case Number(m, _) => var _ := Numeral(if m < 0 then -m else m);
    case String(s) => QuoteNoNul(s);
    case Array(items) => PrintItemsNoNul(items, 0, depth + 1, fmt);
    case Object(members) => PrintMembersNoNul(members, 0, depth + 1, fmt);
    case _ =>
  }

  lemma {:induction false} PrintItemsNoNul(items: seq<Json>, i: nat, depth: nat, fmt: bool)
    requires i <= |items| && Printable(Array(items))
    ensures NoNul(PrintItems(items, i, depth, fmt))
    decreases items, |items| - i
  {
    hide Print, Printable;
    if i < |items| {
      PrintableItem(items, i);
      PrintNoNul(items[i], depth, fmt);
      PrintItemsNoNul(items, i + 1, depth, fmt);
    }
  }

  lemma {:induction false} PrintMembersNoNul(members: seq<Member>, i: nat, depth: nat, fmt: bool)
    requires i <= |members| && Printable(Object(members))
    ensures NoNul(PrintMembers(members, i, depth, fmt))
    decreases members, |members| - i
  {
    hide Print, Printable, MemberStart, MemberEnd;
    if i < |members| {
      PrintableMember(members, i);
      AroundNoNul(members[i].key, depth, fmt, i + 1 == |members|);
      PrintNoNul(members[i].value, depth, fmt);
      PrintMembersNoNul(members, i + 1, depth, fmt);
    }
  }

  lemma AroundNoNul(key: string, depth: nat, fmt: bool, last: bool)
    requires '\0' !in key
    ensures NoNul(MemberStart(key, depth, fmt)) && NoNul(MemberEnd(last, fmt))
  {
    hide StringToken.Quote;
    QuoteNoNul(key);
  }

  // ---------- Printed text is grammatical ----------

  function Layout(v: Json, depth: nat, fmt: bool): Syntax
    requires Printable(v)
    decreases v, 0
  {
    match v
    case Number(m, _) => Figure(Parts(m < 0, Numeral(if m < 0 then -m else m), "", NO_E, "", ""))
    case String(s) => Quoted(StringToken.EscapedAll(s))
    case Array(items) => Brackets("", LayoutItems(items, 0, depth + 1, fmt))
    case Object(members) =>
      Braces(if fmt then "\n" + Tabs(if depth > 0 then depth - 1 else 0) else "",
             LayoutMembers(members, 0, depth + 1, fmt))
    case w => Word(w)
  }

  function LayoutItems(items: seq<Json>, i: nat, depth: nat, fmt: bool): Elements
    requires i <= |items| && Printable(Array(items))
    decreases items, |items| - i
  {
    if i == |items| then NoElement
    else
      assert Printable(items[i]);
      Element(if fmt && i > 0 then " " else "", Layout(items[i], depth, fmt), "",
              LayoutItems(items, i + 1, depth, fmt))
  }

  function LayoutMembers(members: seq<Member>, i: nat, depth: nat, fmt: bool): Entries
    requires i <= |members| && depth > 0 && Printable(Object(members))
    decreases members, |members| - i
  {
    if i == |members| then NoEntry
    else
      assert Printable(members[i].value);
      Entry(if fmt then "\n" + Tabs(depth) else "", StringToken.EscapedAll(members[i].key), "",
            if fmt then "\t" else "", Layout(members[i].value, depth, fmt),
            if fmt && i + 1 == |members| then "\n" + Tabs(depth - 1) else "",
            LayoutMembers(members, i + 1, depth, fmt))
  }

  lemma BlankTabs(n: nat)
    ensures IsBlank(Tabs(n)) && IsBlank("\n" + Tabs(n)) && IsBlank("\t") && IsBlank("") && IsBlank(" ")
  {
  }

  /** The layout of a value is well formed and means that value. */
  lemma {:induction false} LayoutMeans(v: Json, depth: nat, fmt: bool)
    requires Printable(v)
    ensures WellFormed(Layout(v, depth, fmt), Rfc) && Value(Layout(v, depth, fmt)) == v
    decreases v, 0
  {
    match v
    case Number(m, _) =>
      NumeralDecimal(if m < 0 then -m else m);
      var d := Numeral(if m < 0 then -m else m);
      assert d + "" == d;
    case String(s) => StringToken.MeaningOfEscaped(s);
    case Array(items) =>
      LayoutItemsMean(items, 0, depth + 1, fmt);
      assert items[0..] == items;
    case Object(members) =>
      LayoutMembersMean(members, 0, depth + 1, fmt);
      BlankTabs(if depth > 0 then depth - 1 else 0);
      assert members[0..] == members;
    case _ =>
  }

  lemma {:induction false} LayoutItemsMean(items: seq<Json>, i: nat, depth: nat, fmt: bool)
    requires i <= |items| && Printable(Array(items))
    ensures var es := LayoutItems(items, i, depth, fmt); WellFormedElements(es, Rfc) && ElementValues(es) == items[i..]
    decreases items, |items| - i
  {
    hide Layout, Value, WellFormed, Printable, IsBlank;
    if i < |items| {
      PrintableItem(items, i);
      LayoutMeans(items[i], depth, fmt);
      LayoutItemsMean(items, i + 1, depth, fmt);
      BlankTabs(0);
    }
  }

  lemma {:induction false} LayoutMembersMean(members: seq<Member>, i: nat, depth: nat, fmt: bool)
    requires i <= |members| && depth > 0 && Printable(Object(members))
    ensures var es := LayoutMembers(members, i, depth, fmt); WellFormedEntries(es, Rfc) && EntryValues(es) == members[i..]
    decreases members, |members| - i
  {
    hide Layout, Value, WellFormed, Printable, IsBlank;
    if i < |members| {
      var m := members[i];
      PrintableMember(members, i);
      LayoutMeans(m.value, depth, fmt);
      LayoutMembersMean(members, i + 1, depth, fmt);
      BlankTabs(depth);
      BlankTabs(depth - 1);
      StringToken.MeaningOfEscaped(m.key);
      assert m == Member(m.key, m.value);
    }
  }

  /** Without its blanks, the formatted layout is the unformatted one, at whatever depth each is taken. */
  lemma {:induction false} StripLayout(v: Json, depth: nat, fmt: bool, depth': nat)
    requires Printable(v)
    ensures Strip(Layout(v, depth, fmt)) == Layout(v, depth', false)
    decreases v, 0
  {
    match v
    case Array(items) => StripLayoutItems(items, 0, depth + 1, fmt, depth' + 1);
    case Object(members) => StripLayoutMembers(members, 0, depth + 1, fmt, depth' + 1);
    case _ =>
  }

  lemma {:induction false} StripLayoutItems(items: seq<Json>, i: nat, depth: nat, fmt: bool, depth': nat)
    requires i <= |items| && Printable(Array(items))
    ensures StripElements(LayoutItems(items, i, depth, fmt)) == LayoutItems(items, i, depth', false)
    decreases items, |items| - i
  {
    if i < |items| {
      assert Printable(items[i]);
      StripLayout(items[i], depth, fmt, depth');
      StripLayoutItems(items, i + 1, depth, fmt, depth');
    }
  }

  lemma {:induction false} StripLayoutMembers(members: seq<Member>, i: nat, depth: nat, fmt: bool, depth': nat)
    requires i <= |members| && depth > 0 && depth' > 0 && Printable(Object(members))
    ensures StripEntries(LayoutMembers(members, i, depth, fmt)) == LayoutMembers(members, i, depth', false)
    decreases members, |members| - i
  {
    hide Layout, Strip, Printable, Tabs, StringToken.EscapedAll;
    if i < |members| {
      PrintableMember(members, i);
      StripLayout(members[i].value, depth, fmt, depth');
      StripLayoutMembers(members, i + 1, depth, fmt, depth');
    }
  }

  // ---------- The layout spells the printed text ----------

  lemma {:induction false} EmitUnits(us: seq<StringToken.Unit>, a: string, k: string)
    ensures StringToken.Emit(us, a + k) == StringToken.Emit(us, a) + k
  {
    if us != [] {
      EmitUnits(us[1..], a, k);
      Regroup(StringToken.UnitText(us[0]), StringToken.Emit(us[1..], a), k);
    }
  }

  lemma EmitQuote(s: string, k: string)
    ensures EmitString(StringToken.EscapedAll(s), k) == StringToken.Quote(s) + k
  {
    EmitUnits(StringToken.EscapedAll(s), "\"", k);
  }

  lemma {:induction false} LayoutEmits(v: Json, depth: nat, fmt: bool, k: string)
    requires Printable(v)
    ensures Emit(Layout(v, depth, fmt), k) == Print(v, depth, fmt) + k
    decreases v, 0
  {
    match v
    case Number(m, _) => EmitSigned(m, k);
    case String(s) => EmitQuote(s, k);
    case Array(items) =>
      if items != [] {
        LayoutItemsEmit(items, 0, depth + 1, fmt, k);
      }
      ArrayText(items, depth, fmt, k);
    case Object(members) =>
      if members != [] {
        LayoutMembersEmit(members, 0, depth + 1, fmt, k);
      }
      ObjectText(members, depth, fmt, k);
    case _ =>
  }

  lemma EmitSigned(m: int, k: string)
    ensures EmitFigure(Parts(m < 0, Numeral(if m < 0 then -m else m), "", NO_E, "", ""), k) == Signed(m) + k
  {
    var d := Numeral(if m < 0 then -m else m);
    assert d + ("" + ("" + k)) == d + k;
    Regroup("-", d, k);
  }

  lemma ArrayText(items: seq<Json>, depth: nat, fmt: bool, k: string)
    requires Printable(Array(items))
    requires items != [] ==> (
      EmitElements(LayoutItems(items, 0, depth + 1, fmt), k) ==
      "" + (PrintItems(items, 0, depth + 1, fmt) + ("]" + k)))
    ensures Emit(Layout(Array(items), depth, fmt), k) == Print(Array(items), depth, fmt) + k
  {
    var p := PrintItems(items, 0, depth + 1, fmt);
    Regroup("[", p + "]", k);
    Regroup(p, "]", k);
    assert "" + (p + ("]" + k)) == p + ("]" + k);
  }

  lemma ObjectText(members: seq<Member>, depth: nat, fmt: bool, k: string)
    requires Printable(Object(members))
    requires members != [] ==> (
      EmitEntries(LayoutMembers(members, 0, depth + 1, fmt), k) == (if fmt then "\n" else "") +
      (PrintMembers(members, 0, depth + 1, fmt) + ((if fmt then Tabs(depth) else "") + ("}" + k))))
    ensures Emit(Layout(Object(members), depth, fmt), k) == Print(Object(members), depth, fmt) + k
  {
    hide PrintMembers, LayoutMembers, EmitEntries, Tabs, Printable;
    if members == [] {
      var inner := if fmt then "\n" + Tabs(if depth > 0 then depth - 1 else 0) else "";
      NoMembers(depth, fmt, k);
      Regroup("{", inner + "}", k);
      Regroup(inner, "}", k);
    } else {
      var nl, end := if fmt then "\n" else "", if fmt then Tabs(depth) else "";
      PrintableMember(members, 0);
      FirstMember(members, 0, depth + 1, fmt);
      OpenBrace(nl, PrintMembers(members, 0, depth + 1, fmt), end, k);
    }
  }

  lemma NoMembers(depth: nat, fmt: bool, k: string)
    requires Printable(Object([]))
    ensures LayoutMembers([], 0, depth + 1, fmt) == NoEntry
  {
  }

  lemma OpenBrace(nl: string, p: string, end: string, k: string)
    ensures "{" + (nl + (p + (end + "}"))) + k == "{" + (nl + (p + (end + ("}" + k))))
  {
    Regroup("{", nl + (p + (end + "}")), k);
    FourParts(nl, p, end, "}", k);
  }

  lemma {:induction false} LayoutItemsEmit(items: seq<Json>, i: nat, depth: nat, fmt: bool, k: string)
    requires i < |items| && Printable(Array(items))
    ensures EmitElements(LayoutItems(items, i, depth, fmt), k) ==
      (if fmt && i > 0 then " " else "") + (PrintItems(items, i, depth, fmt) + ("]" + k))
    decreases items, |items| - i
  {
    assert Printable(items[i]);
    var p, rest := Print(items[i], depth, fmt), PrintItems(items, i + 1, depth, fmt);
    var sep := ItemEnd(i + 1 == |items|, fmt);
    var more := if i + 1 == |items| then "]" + k else "," + EmitElements(LayoutItems(items, i + 1, depth, fmt), k);
    LayoutEmits(items[i], depth, fmt, "" + more);
    if i + 1 < |items| {
      LayoutItemsEmit(items, i + 1, depth, fmt, k);
    }
    hide Print, Layout, Emit;
    MoreItems(i + 1 == |items|, fmt, rest, k, more);
    Regroup(p, sep + rest, "]" + k);
    Regroup(sep, rest, "]" + k);
  }

  lemma {:induction false} LayoutMembersEmit(members: seq<Member>, i: nat, depth: nat, fmt: bool, k: string)
    requires i < |members| && depth > 0 && Printable(Object(members))
    ensures EmitEntries(LayoutMembers(members, i, depth, fmt), k) == (if fmt then "\n" else "") +
      (PrintMembers(members, i, depth, fmt) + ((if fmt then Tabs(depth - 1) else "") + ("}" + k)))
    decreases members, |members| - i
  {
    hide *;
    PrintableMember(members, i);
    var start, end := MemberStart(members[i].key, depth, fmt), MemberEnd(i + 1 == |members|, fmt);
    var nl, close := if fmt then "\n" else "", (if fmt then Tabs(depth - 1) else "") + ("}" + k);
    var p, rest := Print(members[i].value, depth, fmt), PrintMembers(members, i + 1, depth, fmt);
    var es := LayoutMembers(members, i, depth, fmt);
    FirstMember(members, i, depth, fmt);
    var more := es.after + if es.tail.NoEntry? then "}" + k else "," + EmitEntries(es.tail, k);
    LayoutEmits(members[i].value, depth, fmt, more);
    if i + 1 < |members| {
      LayoutMembersEmit(members, i + 1, depth, fmt, k);
    }
    MoreMembers(i + 1 == |members|, fmt, depth, rest, close, k, more);
    StartMember(es, members[i].key, depth, fmt, p + more);
    FirstEntry(es, k);
    FourParts(start, p, end, rest, close);
  }

  lemma FirstMember(members: seq<Member>, i: nat, depth: nat, fmt: bool)
    requires i < |members| && depth > 0 && Printable(Object(members)) && Printable(members[i].value)
    ensures var es := LayoutMembers(members, i, depth, fmt);
      && es.Entry? && es.tail == LayoutMembers(members, i + 1, depth, fmt) && (es.tail.NoEntry? <==> i + 1 == |members|)
      && es.before == (if fmt then "\n" + Tabs(depth) else "") && es.key == StringToken.EscapedAll(members[i].key)
      && es.beforeColon == "" && es.afterColon == (if fmt then "\t" else "")
      && es.value == Layout(members[i].value, depth, fmt)
      && es.after == if fmt && es.tail.NoEntry? then "\n" + Tabs(depth - 1) else ""
    ensures i + 1 == |members| ==> PrintMembers(members, i + 1, depth, fmt) == ""
    ensures PrintMembers(members, i, depth, fmt) ==
      MemberStart(members[i].key, depth, fmt) + (Print(members[i].value, depth, fmt) +
        (MemberEnd(i + 1 == |members|, fmt) + PrintMembers(members, i + 1, depth, fmt)))
  {
    hide Layout, Print, MemberStart, MemberEnd, Tabs, Printable, StringToken.EscapedAll;
  }

  lemma FirstEntry(es: Entries, k: string)
    requires es.Entry?
    ensures EmitEntries(es, k) == es.before + EmitString(es.key, es.beforeColon + (":" + (es.afterColon + Emit(es.value,
      es.after + if es.tail.NoEntry? then "}" + k else "," + EmitEntries(es.tail, k)))))
  {
  }

  lemma FourParts(a: string, b: string, c: string, d: string, k: string)
    ensures a + (b + (c + d)) + k == a + (b + (c + (d + k)))
  {
    Regroup(a, b + (c + d), k);
    Regroup(b, c + d, k);
    Regroup(c, d, k);
  }

  /** What follows an item. */
  lemma MoreItems(last: bool, fmt: bool, rest: string, k: string, more: string)
    requires last ==> rest == ""
    requires more == if last then "]" + k else "," + ((if fmt then " " else "") + (rest + ("]" + k)))
    ensures "" + more == more == ItemEnd(last, fmt) + (rest + ("]" + k))
  {
    if last {
      assert rest + ("]" + k) == "]" + k;
    } else {
      Regroup(",", if fmt then " " else "", rest + ("]" + k));
    }
  }

  /** What follows a member's value. */
  lemma MoreMembers(last: bool, fmt: bool, depth: nat, rest: string, close: string, k: string, more: string)
    requires depth > 0 && (last ==> rest == "") && close == (if fmt then Tabs(depth - 1) else "") + ("}" + k)
    requires more == (if fmt && last then "\n" + Tabs(depth - 1) else "") +
      if last then "}" + k else "," + ((if fmt then "\n" else "") + (rest + close))
    ensures more == MemberEnd(last, fmt) + (rest + close)
  {
    if last {
      assert rest + close == close;
      Regroup("\n", Tabs(depth - 1), "}" + k);
    } else {
      assert more == "," + ((if fmt then "\n" else "") + (rest + close));
      Regroup(",", if fmt then "\n" else "", rest + close);
    }
  }

  /** What precedes a member's value. */
  lemma StartMember(es: Entries, key: string, depth: nat, fmt: bool, t: string)
    requires es.Entry? && es.before == (if fmt then "\n" + Tabs(depth) else "") && es.beforeColon == ""
    requires es.key == StringToken.EscapedAll(key) && es.afterColon == (if fmt then "\t" else "")
    ensures es.before + EmitString(es.key, es.beforeColon + (":" + (es.afterColon + t))) ==
      (if fmt then "\n" else "") + (MemberStart(key, depth, fmt) + t)
  {
    var q, colon := StringToken.Quote(key), if fmt then ":\t" else ":";
    var tabs := if fmt then Tabs(depth) else "";
    assert es.beforeColon + (":" + (es.afterColon + t)) == colon + t;
    EmitQuote(key, colon + t);
    Regroup(tabs, q + colon, t);
    Regroup(q, colon, t);
    Regroup("\n", tabs, q + (colon + t));
  }

  // ---------- Main results ----------

  /**
    Parsing inverts printing, in both formats, at any depth and before any text that cannot extend a number: the
    value comes back and the parser stops exactly where the printed text ends.
   */
  lemma PrintThenParse(v: Json, depth: nat, fmt: bool, k: string)
    requires Printable(v) && (v.Number? ==> Parser.Stops(k))
    ensures Parser.ParseValue(Print(v, depth, fmt) + k) == Parser.Ok(v, k)
  {
    var c := Layout(v, depth, fmt);
    LayoutMeans(v, depth, fmt);
    LayoutEmits(v, depth, fmt, k);
    Relax(c, Lenient);
    if c.Figure? {
      Parser.StopsEnds(c, k);
    }
    hide *;
    Parser.ParseEmit(c, k);
  }
}
