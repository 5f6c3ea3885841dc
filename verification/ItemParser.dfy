/** The parser of cJSON: it builds a tree of nodes, and any of its allocations may fail. */
module ItemParser {
  import opened CString
  import opened Items
  import opened Json
  import opened Memory
  import Parser
  import StringDecoder
  import StringToken
  import opened TextReader

  // ---------- Parsing ----------

  /** A node that is ready to be filled: it has no value yet, and at most a name. */
  ghost predicate Blank(item: Item)
    reads item, Block(item.name)
  {
    item.child == null && item.valuestring == null && !item.isReference && (item.name != null ==> '\0' in item.name[..])
  }

  /** The children of an array have no names, and so on below them. */
  ghost predicate ItemNames(ks: seq<Shape>, items: seq<Json>) {
    |ks| == |items| && forall i :: 0 <= i < |items| ==> ks[i].name == null && NamesFit(ks[i], items[i])
  }

  ghost predicate MemberNames(ks: seq<Shape>, members: seq<Member>) {
    |ks| == |members| && forall i :: 0 <= i < |members| ==> NamesFit(ks[i], members[i].value)
  }

  lemma NoNames()
    ensures ItemNames([], []) && MemberNames([], [])
  {
  }

  lemma MoreNames(ks: seq<Shape>, k: Shape, items: seq<Json>, members: seq<Member>, v: Json, key: string)
    requires NamesFit(k, v)
    ensures ItemNames(ks, items) && k.name == null ==> ItemNames(ks + [k], items + [v])
    ensures MemberNames(ks, members) ==> MemberNames(ks + [k], members + [Member(key, v)])
  {
    hide NamesFit;
  }

  /** The specified result, or a failure that is specified or goes back to an allocation that has failed. */
  ghost predicate Outcome(r: Parser.Parsed, text: string, end: int, sh: Shape, before: nat, after: nat)
    reads sh.foot
  {
    && Accounted(end >= 0, r.Fail?, before, after)
    && (end >= 0 ==> r.Ok? && end <= |text| && text[end..] == r.rest && Holds(sh, r.value) && NamesFit(sh, r.value))
  }

  /** `parse_string` on a node. */
  method ParseString(h: Heap, item: Item, text: string, pos: nat) returns (end: int)
    requires Blank(item) && pos <= |text|
    requires At(text, pos) == '\"' ==> !StringToken.Lex(text[pos + 1..]).Astray?
    modifies h, item`kind, item`valuestring
    ensures h.live == old(h.live) + Block(item.valuestring) && fresh(Block(item.valuestring))
    ensures end < 0 ==> item.valuestring == null
    ensures Accounted(end >= 0, At(text, pos) != '\"', old(h.failures), h.failures)
    ensures end >= 0 ==> At(text, pos) == '\"' && item.valuestring != null && end <= |text| && item.kind == KString
    ensures end >= 0 ==>
      var token := StringToken.Lex(text[pos + 1..]);
      HoldsText(item.valuestring, StringToken.Meaning(token.units)) && text[end..] == token.rest
  {
    hide StringToken.Lex, StringToken.Meaning;
    var out;
    end, out := StringDecoder.ParseString(h, text, pos);
    if out != null {
      item.valuestring := out;
      item.kind := KString;
    }
  }

  /** The words of the parser. */
  lemma WordCases(text: string, pos: nat)
    requires pos <= |text|
    ensures var s := text[pos..]; var r := Parser.ParseAtom(s);
      && ("null" <= s ==> pos + 4 <= |text| && r == Parser.Ok(Null, text[pos + 4..]))
      && ("false" <= s ==> pos + 5 <= |text| && r == Parser.Ok(False, text[pos + 5..]))
      && ("true" <= s ==> pos + 4 <= |text| && r == Parser.Ok(True, text[pos + 4..]))
  {
    hide Parser.ParseNumber, StringToken.Lex;
    var s := text[pos..];
    if "null" <= s {
      assert s[..4] == "null" && s[0] == 'n' && s[4..] == text[pos + 4..];
    } else if "false" <= s {
      assert s[..5] == "false" && s[0] == 'f' && s[5..] == text[pos + 5..];
    } else if "true" <= s {
      assert s[..4] == "true" && s[0] == 't' && s[4..] == text[pos + 4..];
    }
  }

  method ParseWord(item: Item, text: string, pos: nat) returns (end: int)
    requires pos <= |text|
    modifies item`kind
    ensures var r := Parser.ParseAtom(text[pos..]);
      if end < 0 then unchanged(item) && var s := text[pos..]; !("null" <= s) && !("false" <= s) && !("true" <= s)
      else r.Ok? && end <= |text| && text[end..] == r.rest && LeafFits(item, null, r.value)
  {
    WordCases(text, pos);
    hide Parser.ParseAtom;
    end := -1;
    if "null" <= text[pos..] {
      item.kind, end := KNull, pos + 4;
    } else if "false" <= text[pos..] {
      item.kind, end := KFalse, pos + 5;
    } else if "true" <= text[pos..] {
      item.kind, end := KTrue, pos + 4;
    }
  }

  method FillString(h: Heap, item: Item, text: string, pos: nat) returns (end: int)
    requires Blank(item) && pos <= |text| && At(text, pos) == '\"'
    requires !StringToken.Lex(text[pos + 1..]).Astray?
    modifies h, item`kind, item`valuestring
    ensures fresh(Block(item.valuestring)) && h.live == old(h.live) + Block(item.valuestring)
    ensures item.valuestring != null ==> '\0' in item.valuestring[..]
    ensures Accounted(end >= 0, false, old(h.failures), h.failures)
    ensures end >= 0 ==>
      var r := Parser.ParsedString(StringToken.Lex(text[pos + 1..]));
      end <= |text| && text[end..] == r.rest && LeafFits(item, item.valuestring, r.value)
  {
    hide StringToken.Lex, StringToken.Meaning;
    end := ParseString(h, item, text, pos);
    if end >= 0 {
      TerminatorIn(item.valuestring, StringToken.Meaning(StringToken.Lex(text[pos + 1..]).units));
    }
  }

  lemma TerminatorIn(a: array<char>, s: string)
    requires HoldsText(a, s)
    ensures '\0' in a[..]
  {
    assert a[..][|s|] == '\0';
  }

  method FillNumber(item: Item, text: string, pos: nat) returns (end: int)
    requires pos <= |text| && (At(text, pos) == '-' || IsDigit(At(text, pos)))
    modifies item`kind, item`mantissa, item`exponent
    ensures var r := Parser.ParseNumber(text[pos..]);
      0 <= end <= |text| && text[end..] == r.rest && LeafFits(item, null, r.value)
  {
    hide Parser.ParseNumber;
    var m, e;
    end, m, e := ParseNumber(text, pos);
    item.kind, item.mantissa, item.exponent := KNumber, m, e;
  }

  /** A value that is neither an array nor an object. */
  method FillAtom(h: Heap, item: Item, text: string, pos: nat) returns (end: int)
    requires Blank(item) && pos <= |text| && !Parser.ParseAtom(text[pos..]).Outside?
    modifies h, item`kind, item`valuestring, item`mantissa, item`exponent
    ensures fresh(Block(item.valuestring)) && h.live == old(h.live) + Block(item.valuestring)
    ensures item.valuestring != null ==> '\0' in item.valuestring[..]
    ensures Accounted(end >= 0, Parser.ParseAtom(text[pos..]).Fail?, old(h.failures), h.failures)
    ensures end >= 0 ==>
      var r := Parser.ParseAtom(text[pos..]);
      r.Ok? && end <= |text| && text[end..] == r.rest && LeafFits(item, item.valuestring, r.value)
  {
    hide Parser.ParseAtom, Parser.ParseNumber, Parser.ParsedString, StringToken.Lex, LeafFits;
    end := ParseWord(item, text, pos);
    if end < 0 {
      NoWord(text, pos);
      if At(text, pos) == '\"' {
        StringResult(StringToken.Lex(text[pos + 1..]));
        end := FillString(h, item, text, pos);
      } else if At(text, pos) == '-' || IsDigit(At(text, pos)) {
        end := FillNumber(item, text, pos);
      }
    }
  }

  lemma StringResult(token: StringToken.Lexed)
    ensures !Parser.ParsedString(token).Fail? && (Parser.ParsedString(token).Outside? <==> token.Astray?)
  {
  }

  method ParseAtom(h: Heap, item: Item, text: string, pos: nat) returns (end: int, ghost sh: Shape)
    requires Blank(item) && pos <= |text| && !Parser.ParseAtom(text[pos..]).Outside?
    modifies h, item
    ensures sh.node == item && sh.name == item.name == old(item.name)
    ensures item.next == old(item.next) && item.prev == old(item.prev)
    ensures Is(sh) && fresh(Inner(sh)) && h.live == old(h.live) + Inner(sh)
    ensures Outcome(Parser.ParseAtom(text[pos..]), text, end, sh, old(h.failures), h.failures)
  {
    hide Is, Holds, NamesFit, FootAll, Inner, Linked, Parser.ParseAtom, LeafFits;
    end := FillAtom(h, item, text, pos);
    sh := Make(item, item.valuestring, item.name, []);
    LeafIs(item, item.valuestring, item.name);
    if end >= 0 {
      LeafHolds(item, item.valuestring, item.name, Parser.ParseAtom(text[pos..]).value);
      AtomNames(sh, text[pos..]);
    }
  }

  lemma AtomNames(sh: Shape, s: string)
    requires Parser.ParseAtom(s).Ok?
    ensures NamesFit(sh, Parser.ParseAtom(s).value)
  {
    hide StringToken.Lex, StringToken.Meaning;
  }

  lemma NoWord(text: string, pos: nat)
    requires pos <= |text|
    requires var s := text[pos..]; !("null" <= s) && !("false" <= s) && !("true" <= s)
    ensures Parser.ParseAtom(text[pos..]) ==
      if At(text, pos) == '\"' then
        Parser.ParsedString(StringToken.Lex(text[pos + 1..]))
      else if At(text, pos) == '-' || IsDigit(At(text, pos)) then
        Parser.ParseNumber(text[pos..])
      else
        Parser.Fail
  {
    Rest(text, pos);
  }

  /** What parsing a value into `item` has allocated hangs below `item`, whether or not the parse succeeded. */
  ghost predicate Grown(sh: Shape, item: Item, name: array?<char>)
    reads sh.foot, item
  {
    sh.node == item && sh.name == name == item.name && Is(sh)
  }

  method ParseValue(h: Heap, item: Item, text: string, pos: nat) returns (end: int, ghost sh: Shape)
    requires Blank(item) && pos <= |text|
    requires !Parser.ParseValue(text[pos..]).Outside?
    modifies h, item
    ensures Grown(sh, item, old(item.name)) && item.next == old(item.next) && item.prev == old(item.prev)
    ensures fresh(Inner(sh)) && h.live == old(h.live) + Inner(sh)
    ensures Outcome(Parser.ParseValue(text[pos..]), text, end, sh, old(h.failures), h.failures)
    decreases |text| - pos, 2
  {
    hide Is, Holds, NamesFit, FootAll, Inner, Linked, Parser.ParseElements, Parser.ParseMembers;
    if At(text, pos) == '[' {
      end, sh := ParseArray(h, item, text, pos);
    } else if At(text, pos) == '{' {
      end, sh := ParseObject(h, item, text, pos);
    } else {
      end, sh := ParseAtom(h, item, text, pos);
    }
  }

  /** What `ParseElements` does behind an element. */
  function AfterElement(done: seq<Json>, t: string): Parser.Parsed {
    if Head(t) == ',' then Parser.ParseElements(done, t[1..])
    else if Head(t) == ']' then Parser.Ok(Array(done), t[1..])
    else Parser.Fail
  }

  lemma ElementsCases(done: seq<Json>, s: string)
    ensures var r := Parser.ParseValue(Skip(s));
      Parser.ParseElements(done, s) == if r.Ok? then AfterElement(done + [r.value], Skip(r.rest)) else r
  {
    hide Parser.ParseValue;
  }

  method ParseArray(h: Heap, item: Item, text: string, pos: nat) returns (end: int, ghost sh: Shape)
    requires Blank(item) && pos <= |text| && At(text, pos) == '['
    requires !Parser.ParseValue(text[pos..]).Outside?
    modifies h, item
    ensures Grown(sh, item, old(item.name)) && item.next == old(item.next) && item.prev == old(item.prev)
    ensures fresh(Inner(sh)) && h.live == old(h.live) + Inner(sh)
    ensures Outcome(Parser.ParseValue(text[pos..]), text, end, sh, old(h.failures), h.failures)
    decreases |text| - pos, 1
  {
    hide Is, Holds, NamesFit, FootAll, LinkedTo, Apart, Inner, Skip, Parser.ParseElements, Parser.ParseMembers, Parser.ParseAtom;
    Rest(text, pos);
    item.kind := KArray;
    end := -1;
    ghost var ks: seq<Shape>, items: seq<Json> := [], [];
    NoKids(item.child);
    var p := SkipAt(text, pos + 1);
    if At(text, p) == ']' {
      Rest(text, p);
      end := p + 1;
    } else {
      end, ks, items := ParseElements(h, item, text, pos + 1);
    }
    sh := Make(item, null, item.name, ks);
    MakeIs(item, null, item.name, ks);
    if end >= 0 {
      MakeArray(item, item.name, ks, items);
    }
  }

  /** The first round and the loop of rounds behind it. */
  method ParseElements(h: Heap, item: Item, text: string, start: nat)
    returns (end: int, ghost ks: seq<Shape>, ghost items: seq<Json>)
    requires start <= |text| && item.child == null && !Parser.ParseElements([], text[start..]).Outside?
    modifies h, item`child
    ensures Linked(item.child, ks) && IsAll(ks) && fresh(FootAll(ks)) && h.live == old(h.live) + FootAll(ks)
    ensures Accounted(end >= 0, Parser.ParseElements([], text[start..]).Fail?, old(h.failures), h.failures)
    ensures end >= 0 ==>
      var r := Parser.ParseElements([], text[start..]);
      end <= |text| && HoldItems(ks, items) && ItemNames(ks, items) && r == Parser.Ok(Array(items), text[end..])
    decreases |text| - start, 5
  {
    hide Is, Holds, NamesFit, FootAll, LinkedTo, Apart, Skip, Parser.ParseElements, ItemNames;
    ghost var goal := Parser.ParseElements([], text[start..]);
    NoKids(item.child);
    NoNames();
    ElementsCases([], text[start..]);
    var ok, p, child;
    ok, p, child, ks, items := ParseElement(h, item, null, text, start, [], []);
    while ok && At(text, p) == ','
      invariant start <= p <= |text| && (child != null ==> child in FootAll(ks))
      invariant Linked(item.child, ks) && IsAll(ks) && child == Last(ks) && fresh(FootAll(ks))
      invariant h.live == old(h.live) + FootAll(ks)
      invariant ok ==> HoldItems(ks, items) && ItemNames(ks, items) && goal == AfterElement(items, text[p..])
      invariant Accounted(ok, goal.Fail?, old(h.failures), h.failures)
      decreases |text| - p, ok
    {
      Rest(text, p);
      ElementsCases(items, text[p + 1..]);
      ok, p, child, ks, items := ParseElement(h, item, child, text, p + 1, ks, items);
    }
    end := -1;
    if ok && At(text, p) == ']' {
      Rest(text, p);
      end := p + 1;
    }
  }

  lemma MakeArray(item: Item, name: array?<char>, ks: seq<Shape>, items: seq<Json>)
    requires item.kind == KArray && !item.isReference && HoldItems(ks, items) && Is(Make(item, null, name, ks))
    requires ItemNames(ks, items)
    ensures Holds(Make(item, null, name, ks), Array(items)) && NamesFit(Make(item, null, name, ks), Array(items))
  {
    hide FootAll, Linked;
  }

  /** The chain of children goes on to `last`. */
  ghost predicate Extended(item: Item, ks: seq<Shape>, ks': seq<Shape>, last: Item?)
    reads item, FootAll(ks')
  {
    && Linked(item.child, ks') && IsAll(ks') && FootAll(ks) <= FootAll(ks')
    && last == Last(ks') && (last != null ==> last in FootAll(ks'))
  }

  /** One more element has been read, up to `p`. */
  predicate ElementRead(text: string, start: nat, p: nat, items: seq<Json>, items': seq<Json>)
    requires start <= |text| && p <= |text|
  {
    var r := Parser.ParseValue(Skip(text[start..]));
    r.Ok? && text[p..] == Skip(r.rest) && items' == items + [r.value]
  }

  /** One round of the loops over the elements: allocate a node, link it behind the last one, parse into it. */
  method ParseElement(h: Heap, item: Item, last: Item?, text: string, start: nat, ghost ks: seq<Shape>,
                      ghost items: seq<Json>)
    returns (ok: bool, p: nat, child: Item?, ghost ks': seq<Shape>, ghost items': seq<Json>)
    requires start <= |text| && !Parser.ParseValue(Skip(text[start..])).Outside?
    requires Linked(item.child, ks) && IsAll(ks) && HoldItems(ks, items) && ItemNames(ks, items) && last == Last(ks)
    requires item !in FootAll(ks) && h !in FootAll(ks) && FootAll(ks) <= h.live
    modifies h, item`child, (if last == null then {} else {last})`next
    ensures Extended(item, ks, ks', child) && start <= p <= |text|
    ensures (forall o :: o in FootAll(ks') ==> o in FootAll(ks) || fresh(o)) && h.live == old(h.live) + (FootAll(ks') - FootAll(ks))
    ensures ok ==> ElementRead(text, start, p, items, items') && HoldItems(ks', items') && ItemNames(ks', items')
    ensures Accounted(ok, Parser.ParseValue(Skip(text[start..])).Fail?, old(h.failures), h.failures)
    decreases |text| - start, 4
  {
    hide Is, Holds, NamesFit, FootAll, LinkedTo, Apart, Parser.ParseValue, Skip, ItemNames, HoldItems;
    ok, p, child, ks', items' := false, start, last, ks, items;
    LastIn(ks);
    var n := NewItem(h);
    if n == null {
      return;
    }
    LinkLast(item, last, n, ks, items, []);
    child := n;
    var end;
    ghost var k;
    end, k := FillElement(h, n, text, start);
    ks' := ks + [k];
    NodeIn(k);
    assert FootAll(ks) !! k.foot;
    Joined(item.child, ks, k);
    if end >= 0 {
      p := SkipAt(text, end);
      ok := true;
      items' := items + [Parser.ParseValue(Skip(text[start..])).value];
      JoinedItems(ks, k, items, Parser.ParseValue(Skip(text[start..])).value);
      MoreNames(ks, k, items, [], Parser.ParseValue(Skip(text[start..])).value, "");
    }
  }

  /** The value of an element, behind the blanks before it. */
  method FillElement(h: Heap, n: Item, text: string, start: nat) returns (end: int, ghost k: Shape)
    requires Blank(n) && n.name == null && start <= |text| && !Parser.ParseValue(Skip(text[start..])).Outside?
    modifies h, n
    ensures k.node == n && k.name == null && Is(k) && n.next == old(n.next) && n.prev == old(n.prev)
    ensures fresh(k.foot - {n}) && h.live == old(h.live) + (k.foot - {n})
    ensures Accounted(end >= 0, Parser.ParseValue(Skip(text[start..])).Fail?, old(h.failures), h.failures)
    ensures end >= 0 ==>
      var r := Parser.ParseValue(Skip(text[start..]));
      r.Ok? && start <= end <= |text| && text[end..] == r.rest && Holds(k, r.value) && NamesFit(k, r.value)
    decreases |text| - start, 3
  {
    hide Is, Holds, NamesFit, FootAll, Parser.ParseValue, Skip;
    var q := SkipAt(text, start);
    end, k := ParseValue(h, n, text, q);
    NodeIn(k);
  }

  /** What `ParseMembers` does behind a member. */
  function AfterMember(done: seq<Member>, t: string): Parser.Parsed {
    if Head(t) == ',' then Parser.ParseMembers(done, t[1..])
    else if Head(t) == '}' then Parser.Ok(Object(done), t[1..])
    else Parser.Fail
  }

  /** A single member: key, colon and value, up to what follows the blanks behind the value. */
  function ReadMember(s: string): (r: (Parser.Parsed, string))
    ensures r.0.Ok? ==> '\0' !in r.1
  {
    var t := Skip(s);
    if Head(t) != '\"' then (Parser.Fail, "")
    else
      var key := StringToken.Lex(t[1..]);
      if key.Astray? then (Parser.Outside, "")
      else
        var u := Skip(key.rest);
        if Head(u) != ':' then (Parser.Fail, "")
        else
          StringDecoder.ScanToken(t[1..]);
          (Parser.ParseValue(Skip(u[1..])), StringToken.Meaning(key.units))
  }

  lemma MembersCases(done: seq<Member>, s: string)
    ensures var r := ReadMember(s);
      Parser.ParseMembers(done, s) ==
        if r.0.Ok? then AfterMember(done + [Member(r.1, r.0.value)], Skip(r.0.rest)) else r.0
  {
    hide Parser.ParseValue, StringToken.Lex, StringToken.Meaning, Skip;
  }

  method ParseObject(h: Heap, item: Item, text: string, pos: nat) returns (end: int, ghost sh: Shape)
    requires Blank(item) && pos <= |text| && At(text, pos) == '{'
    requires !Parser.ParseValue(text[pos..]).Outside?
    modifies h, item
    ensures Grown(sh, item, old(item.name)) && item.next == old(item.next) && item.prev == old(item.prev)
    ensures fresh(Inner(sh)) && h.live == old(h.live) + Inner(sh)
    ensures Outcome(Parser.ParseValue(text[pos..]), text, end, sh, old(h.failures), h.failures)
    decreases |text| - pos, 1
  {
    hide Is, Holds, NamesFit, FootAll, LinkedTo, Apart, Inner, Skip, Parser.ParseElements, Parser.ParseMembers, Parser.ParseAtom;
    Rest(text, pos);
    item.kind := KObject;
    end := -1;
    ghost var ks: seq<Shape>, members: seq<Member> := [], [];
    NoKids(item.child);
    var p := SkipAt(text, pos + 1);
    if At(text, p) == '}' {
      Rest(text, p);
      end := p + 1;
    } else {
      end, ks, members := ParseMembers(h, item, text, pos + 1);
    }
    sh := Make(item, null, item.name, ks);
    MakeIs(item, null, item.name, ks);
    if end >= 0 {
      MakeObject(item, item.name, ks, members);
    }
  }

  /** The first round and the loop of rounds behind it. */
  method ParseMembers(h: Heap, item: Item, text: string, start: nat)
    returns (end: int, ghost ks: seq<Shape>, ghost members: seq<Member>)
    requires start <= |text| && item.child == null && !Parser.ParseMembers([], text[start..]).Outside?
    modifies h, item`child
    ensures Linked(item.child, ks) && IsAll(ks) && fresh(FootAll(ks)) && h.live == old(h.live) + FootAll(ks)
    ensures Accounted(end >= 0, Parser.ParseMembers([], text[start..]).Fail?, old(h.failures), h.failures)
    ensures end >= 0 ==>
      var r := Parser.ParseMembers([], text[start..]);
      end <= |text| && HoldMembers(ks, members) && MemberNames(ks, members) && r == Parser.Ok(Object(members), text[end..])
    decreases |text| - start, 4
  {
    hide Is, Holds, NamesFit, FootAll, LinkedTo, Apart, Skip, Parser.ParseMembers, ReadMember, MemberNames;
    ghost var goal := Parser.ParseMembers([], text[start..]);
    NoKids(item.child);
    NoNames();
    MembersCases([], text[start..]);
    var ok, p, child;
    ok, p, child, ks, members := ParseMember(h, item, null, text, start, [], []);
    while ok && At(text, p) == ','
      invariant start <= p <= |text| && (child != null ==> child in FootAll(ks))
      invariant Linked(item.child, ks) && IsAll(ks) && child == Last(ks) && fresh(FootAll(ks))
      invariant h.live == old(h.live) + FootAll(ks)
      invariant ok ==> HoldMembers(ks, members) && MemberNames(ks, members) && goal == AfterMember(members, text[p..])
      invariant Accounted(ok, goal.Fail?, old(h.failures), h.failures)
      decreases |text| - p, ok
    {
      Rest(text, p);
      MembersCases(members, text[p + 1..]);
      ok, p, child, ks, members := ParseMember(h, item, child, text, p + 1, ks, members);
    }
    end := -1;
    if ok && At(text, p) == '}' {
      Rest(text, p);
      end := p + 1;
    }
  }

  lemma MakeObject(item: Item, name: array?<char>, ks: seq<Shape>, members: seq<Member>)
    requires item.kind == KObject && !item.isReference && HoldMembers(ks, members) && Is(Make(item, null, name, ks))
    requires MemberNames(ks, members)
    ensures Holds(Make(item, null, name, ks), Object(members)) && NamesFit(Make(item, null, name, ks), Object(members))
  {
    hide FootAll, Linked;
  }

  /** One more member has been read, up to `p`. */
  predicate MemberRead(text: string, start: nat, p: nat, members: seq<Member>, members': seq<Member>)
    requires start <= |text| && p <= |text|
  {
    var r := ReadMember(text[start..]);
    r.0.Ok? && text[p..] == Skip(r.0.rest) && members' == members + [Member(r.1, r.0.value)]
  }

  /** One round of the loops over the members: allocate and link a node, parse its name and then its value into it. */
  method ParseMember(h: Heap, item: Item, last: Item?, text: string, start: nat, ghost ks: seq<Shape>,
                     ghost members: seq<Member>)
    returns (ok: bool, p: nat, child: Item?, ghost ks': seq<Shape>, ghost members': seq<Member>)
    requires start <= |text| && !ReadMember(text[start..]).0.Outside?
    requires Linked(item.child, ks) && IsAll(ks) && HoldMembers(ks, members) && MemberNames(ks, members) && last == Last(ks)
    requires item !in FootAll(ks) && h !in FootAll(ks) && FootAll(ks) <= h.live
    modifies h, item`child, (if last == null then {} else {last})`next
    ensures Extended(item, ks, ks', child) && start <= p <= |text|
    ensures (forall o :: o in FootAll(ks') ==> o in FootAll(ks) || fresh(o)) && h.live == old(h.live) + (FootAll(ks') - FootAll(ks))
    ensures ok ==> MemberRead(text, start, p, members, members') && HoldMembers(ks', members') && MemberNames(ks', members')
    ensures Accounted(ok, ReadMember(text[start..]).0.Fail?, old(h.failures), h.failures)
    decreases |text| - start, 3
  {
    hide Is, Holds, NamesFit, FootAll, LinkedTo, Apart, HoldsMember, Skip, ReadMember, MemberNames, HoldMembers;
    ok, p, child, ks', members' := false, start, last, ks, members;
    LastIn(ks);
    var n := NewItem(h);
    if n == null {
      return;
    }
    LinkLast(item, last, n, ks, [], members);
    child := n;
    var end;
    ghost var k;
    end, k := FillMember(h, n, text, start);
    ks' := ks + [k];
    NodeIn(k);
    assert FootAll(ks) !! k.foot;
    Joined(item.child, ks, k);
    if end >= 0 {
      p := SkipAt(text, end);
      ok := true;
      ghost var r := ReadMember(text[start..]);
      members' := members + [Member(r.1, r.0.value)];
      JoinedMembers(ks, k, members, Member(r.1, r.0.value));
      MoreNames(ks, k, [], members, r.0.value, r.1);
    }
  }

  /** The name of a member and its colon, up to its value. */
  method FillName(h: Heap, n: Item, text: string, start: nat) returns (p: int)
    requires Blank(n) && n.name == null && start <= |text| && !ReadMember(text[start..]).0.Outside?
    modifies h, n`kind, n`valuestring, n`name
    ensures n.valuestring == null && h.live == old(h.live) + Block(n.name) && fresh(Block(n.name))
    ensures n.name != null ==> '\0' in n.name[..]
    ensures p < 0 ==> Accounted(false, ReadMember(text[start..]).0.Fail?, old(h.failures), h.failures)
    ensures p >= 0 ==>
      && h.failures == old(h.failures) && start < p <= |text| && n.name != null
      && HoldsText(n.name, ReadMember(text[start..]).1) && ReadMember(text[start..]).0 == Parser.ParseValue(text[p..])
  {
    hide Parser.ParseValue, Skip, StringToken.Lex, StringToken.Meaning;
    p := SkipAt(text, start);
    Rest(text, p);
    var end := ParseString(h, n, text, p);
    n.name, n.valuestring := n.valuestring, null;
    if end < 0 {
      return -1;
    }
    p := SkipAt(text, end);
    if At(text, p) != ':' {
      return -1;
    }
    Rest(text, p);
    p := SkipAt(text, p + 1);
  }

  method FillMember(h: Heap, n: Item, text: string, start: nat) returns (end: int, ghost k: Shape)
    requires Blank(n) && n.name == null && start <= |text| && !ReadMember(text[start..]).0.Outside?
    modifies h, n
    ensures k.node == n && Is(k) && n.next == old(n.next) && n.prev == old(n.prev)
    ensures fresh(k.foot - {n}) && h.live == old(h.live) + (k.foot - {n})
    ensures Accounted(end >= 0, ReadMember(text[start..]).0.Fail?, old(h.failures), h.failures)
    ensures end >= 0 ==>
      var r := ReadMember(text[start..]);
      r.0.Ok? && start <= end <= |text| && text[end..] == r.0.rest && HoldsMember(k, Member(r.1, r.0.value))
      && NamesFit(k, r.0.value)
    decreases |text| - start, 2
  {
    hide Is, Holds, NamesFit, FootAll, LinkedTo, Apart, Parser.ParseValue, ReadMember;
    var p := FillName(h, n, text, start);
    k := Make(n, null, n.name, []);
    LeafIs(n, null, n.name);
    end := -1;
    if p >= 0 {
      end, k := ParseValue(h, n, text, p);
      NodeIn(k);
    }
  }

  /**
    `cJSON_ParseWithOpts`: a failed parse has freed everything it has allocated; a successful one has handed over
    exactly the tree it returns, which represents the parsed value.
   */
  method ParseWithOpts(h: Heap, text: string, requireEnd: bool) returns (c: Item?, end: int, ghost owned: seq<Shape>)
    requires !Parser.ParseText(text, requireEnd).Outside?
    modifies h
    ensures Accounted(c != null, Parser.ParseText(text, requireEnd).Fail?, old(h.failures), h.failures)
    ensures c == null ==> h.live == old(h.live)
    ensures c != null ==>
      && |owned| == 1 && Forward(c, owned) && IsAll(owned) && owned[0].name == null && c.prev == null
      && fresh(owned[0].foot) && h.live == old(h.live) + owned[0].foot
    ensures c != null ==>
      var r := Parser.ParseText(text, requireEnd);
      r.Ok? && 0 <= end <= |text| && text[end..] == r.rest && Holds(owned[0], r.value) && NamesFit(owned[0], r.value)
  {
    hide Is, Holds, NamesFit, FootAll, Skip, Parser.ParseValue;
    end, owned := -1, [];
    c := NewItem(h);
    if c == null {
      return;
    }
    assert text[0..] == text;
    var p := SkipAt(text, 0);
    ghost var sh;
    end, sh := ParseValue(h, c, text, p);
    NodeIn(sh);
    Single(sh);
    owned := [sh];
    if end >= 0 && requireEnd {
      end := SkipAt(text, end);
      if At(text, end) != '\0' {
        end := -1;
      }
    }
    if end < 0 {
      Delete(h, c, owned);
      c := null;
    }
  }
}
