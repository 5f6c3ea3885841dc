/** Printing a tree of nodes into the growing buffer. */
module BufferedPrinter {
  import opened Items
  import opened Json
  import opened Memory
  import opened PrintBuffer
  import opened Printer
  import opened Sequences
  import CString
  import StringEncoder
  import StringToken

  /** The bytes before the offset. */
  ghost function Done(p: Buffer): string
    requires p.Valid()
    reads p, p.heap, Block(p.buffer)
  {
    if p.buffer == null then "" else p.buffer[..p.offset]
  }

  /** Room for `text` and the slack that the printer asks for. */
  ghost predicate Room(p: Buffer, text: string)
    reads p
  {
    p.buffer != null ==> p.offset + |text| + 32 <= MAX_SIZE
  }

  /** Behind `before` the buffer holds `text` and a terminator; the offset is still within that text. */
  ghost predicate Wrote(p: Buffer, before: string, text: string, out: int)
    reads p, p.heap, Block(p.buffer)
  {
    && p.Valid() && p.buffer != null && out == |before| && |before| + |text| < p.length
    && p.buffer[..|before| + |text|] == before + text && p.buffer[|before| + |text|] == '\0'
    && |before| <= p.offset <= |before| + |text|
  }

  /** `text` is printed, or the buffer is lost because an allocation has failed. */
  ghost predicate Result(p: Buffer, before: string, text: string, out: int)
    reads p, p.heap, Block(p.buffer)
  {
    p.Valid() && if p.buffer == null then out < 0 else Wrote(p, before, text, out)
  }

  method PutText(p: Buffer, needed: nat, s: string) returns (out: int)
    requires p.Valid() && p.buffer != null && p.offset + needed <= MAX_SIZE && |s| < needed
    modifies p, p.heap, Block(p.buffer)
    ensures Result(p, old(Done(p)), s, out) && (p.buffer == null || p.buffer == old(p.buffer) || fresh(p.buffer))
  {
    out := p.Put(needed, s + "\0");
    if out >= 0 {
      assert p.buffer[..p.offset + |s|] == p.buffer[..p.offset + |s| + 1][..p.offset + |s|];
    }
  }

  /** `print_string_ptr` */
  method PrintString(p: Buffer, str: array<char>, ghost s: string) returns (out: int)
    requires HoldsText(str, s) && p.Valid() && p.buffer != null && p.buffer != str && Room(p, StringToken.Quote(s))
    modifies p, p.heap, Block(p.buffer)
    ensures Result(p, old(Done(p)), StringToken.Quote(s), out)
    ensures p.buffer == null || p.buffer == old(p.buffer) || fresh(p.buffer)
  {
    hide StringToken.Quote, HoldsText;
    Terminated(str, s);
    var len, flag := StringEncoder.FindEscape(str, s);
    if flag {
      len := StringEncoder.CountEscaped(str, s);
    } else {
      StringEncoder.PlainText(s);
    }
    out := Reserve(p, len + 3);
    if out >= 0 {
      if flag {
        StringEncoder.WriteEscaped(str, s, p.buffer, out);
      } else {
        StringEncoder.WritePlain(str[..len], p.buffer, out);
      }
    }
  }

  lemma Terminated(str: array<char>, s: string)
    requires HoldsText(str, s)
    ensures |s| < str.Length && str[..|s|] == s && '\0' !in s
  {
  }

  /** `ensure`, which keeps the bytes before the offset. */
  method Reserve(p: Buffer, needed: nat) returns (out: int)
    requires p.Valid() && p.buffer != null && p.offset + needed <= MAX_SIZE
    modifies p, p.heap, Block(p.buffer)
    ensures p.Valid() && p.offset == old(p.offset) && (p.buffer == null || p.buffer == old(p.buffer) || fresh(p.buffer))
    ensures if p.buffer == null then out < 0
      else out == p.offset && p.offset + needed <= p.length && Done(p) == old(Done(p))
  {
    out := p.Ensure(needed);
    if out >= 0 {
      assert p.buffer[..p.offset] == p.buffer[..old(p.length)][..p.offset];
    }
  }

  /** `p->offset=update(p)` behind printed text. */
  method Advance(p: Buffer, ghost before: string, ghost text: string, ghost out: int)
    requires Wrote(p, before, text, out) && NoNul(text)
    modifies p`offset
    ensures p.Valid() && p.offset == |before| + |text| && Done(p) == before + text && p.offset < p.length
  {
    ghost var b := p.buffer[..|before| + |text|];
    assert p.buffer[p.offset..][|before| + |text| - p.offset] == '\0';
    var end := p.Update();
    assert forall i :: |before| <= i < |before| + |text| ==> p.buffer[i] == b[i] == text[i - |before|];
    p.offset := end;
  }

  // ---------- The printer ----------

  /** The tree is apart from the buffer, and there is room to print it. */
  ghost predicate Ready(p: Buffer, sh: Shape, v: Json, text: string)
    reads p, p.heap, sh.foot
  {
    && p.Valid() && p.buffer != null && Room(p, text)
    && Is(sh) && Holds(sh, v) && Printable(v) && p !in sh.foot && p.heap !in sh.foot && p.buffer !in sh.foot
  }

  method PrintNumber(p: Buffer, item: Item, ghost sh: Shape, ghost v: Json) returns (out: int)
    requires v.Number? && Ready(p, sh, v, CString.Signed(v.mantissa)) && item == sh.node
    modifies p, p.heap, Block(p.buffer)
    ensures Result(p, old(Done(p)), CString.Signed(v.mantissa), out)
    ensures p.buffer == null || p.buffer == old(p.buffer) || fresh(p.buffer)
  {
    CString.SignedLength(item.mantissa);
    if item.mantissa == 0 {
      out := PutText(p, 2, "0");
    } else {
      out := PutText(p, 21, CString.Signed(item.mantissa));
    }
  }

  method PrintValue(p: Buffer, item: Item, depth: nat, fmt: bool, ghost sh: Shape, ghost v: Json) returns (out: int)
    requires Ready(p, sh, v, Print(v, depth, fmt)) && item == sh.node
    modifies p, p.heap, Block(p.buffer)
    ensures Result(p, old(Done(p)), Print(v, depth, fmt), out)
    ensures p.buffer == null || p.buffer == old(p.buffer) || fresh(p.buffer)
    decreases sh, 3
  {
    hide Is, FootAll, PrintItems, PrintMembers;
    TextsEnd(sh);
    KidCount(sh, v);
    match item.kind
    case KNull => out := PutText(p, 5, "null");
    case KFalse => out := PutText(p, 6, "false");
    case KTrue => out := PutText(p, 5, "true");
    case KNumber => out := PrintNumber(p, item, sh, v);
    case KString => out := PrintString(p, item.valuestring, v.text);
    case KArray => out := PrintArray(p, item, depth, fmt, sh, v);
    case KObject => out := PrintObject(p, item, depth, fmt, sh, v);
  }

  /** What is done, followed by what is still to come, is what stood before and the whole text. */
  ghost predicate Progress(p: Buffer, before: string, rest: string, text: string)
    reads p, p.heap, Block(p.buffer)
  {
    p.Valid() && p.buffer != null && Done(p) + rest == before + text && Room(p, rest)
  }

  /** The tree is apart from the buffer. */
  ghost predicate Clear(p: Buffer, sh: Shape, v: Json)
    reads p, sh.foot
  {
    Is(sh) && Holds(sh, v) && Printable(v) && p !in sh.foot && p.heap !in sh.foot && (p.buffer != null ==> p.buffer !in sh.foot)
  }

  /** `s` is written and the offset moved behind it. */
  method PutNext(p: Buffer, needed: nat, s: string, end: string, ghost before: string, ghost rest: string, ghost text: string)
    returns (at: int)
    requires if p.buffer == null then p.Valid() else Progress(p, before, s + rest, text)
    requires |s + end| <= needed <= |s| + 32
    modifies p, p.heap, Block(p.buffer)
    ensures p.Valid() && (p.buffer == null || p.buffer == old(p.buffer) || fresh(p.buffer))
    ensures if at < 0 then p.buffer == null else Progress(p, before, rest, text)
  {
    ghost var was := Done(p);
    at := p.Put(needed, s + end);
    if at >= 0 {
      assert p.buffer[..p.offset + |s|] == p.buffer[..p.offset + |s + end|][..p.offset + |s|];
      p.offset := p.offset + |s|;
      Regroup(was, s, rest);
    }
  }

  /** There is a buffer while there is progress. */
  lemma InProgress(p: Buffer, before: string, rest: string, text: string)
    requires Progress(p, before, rest, text)
    ensures p.Valid() && p.buffer != null
  {
  }

  /** A printed value moves the progress on by its text. */
  method PrintNext(p: Buffer, item: Item, depth: nat, fmt: bool, ghost sh: Shape, ghost v: Json, ghost before: string,
                   ghost rest: string, ghost text: string)
    requires Clear(p, sh, v) && item == sh.node && Progress(p, before, Print(v, depth, fmt) + rest, text)
    modifies p, p.heap, Block(p.buffer)
    ensures p.Valid() && (p.buffer == null || p.buffer == old(p.buffer) || fresh(p.buffer))
    ensures p.buffer != null ==> Progress(p, before, rest, text)
    decreases sh, 4
  {
    hide Is, Holds, FootAll, Print;
    ghost var was, t := Done(p), Print(v, depth, fmt);
    var out := PrintValue(p, item, depth, fmt, sh, v);
    if p.buffer != null {
      PrintNoNul(v, depth, fmt);
      Advance(p, was, t, out);
      Regroup(was, t, rest);
    } else {
      p.offset := p.Update();
    }
  }

  /** The end of a container: the offset stays before it. */
  method PutEnd(p: Buffer, needed: nat, s: string, start: nat, ghost before: string, ghost text: string) returns (out: int)
    requires if p.buffer == null then p.Valid() else Progress(p, before, s, text) && |before| <= p.offset
    requires start == |before| && |s| < needed <= |s| + 32
    modifies p, p.heap, Block(p.buffer)
    ensures Result(p, before, text, out) && (p.buffer == null || p.buffer == old(p.buffer) || fresh(p.buffer))
  {
    out := -1;
    if p.buffer != null {
      out := PutText(p, needed, s);
      if out >= 0 {
        out := start;
      }
    }
  }

  method PrintArray(p: Buffer, item: Item, depth: nat, fmt: bool, ghost sh: Shape, ghost v: Json) returns (out: int)
    requires v.Array? && Ready(p, sh, v, Print(v, depth, fmt)) && item == sh.node
    modifies p, p.heap, Block(p.buffer)
    ensures Result(p, old(Done(p)), Print(v, depth, fmt), out)
    ensures p.buffer == null || p.buffer == old(p.buffer) || fresh(p.buffer)
    decreases sh, 2
  {
    hide Is, Holds, FootAll, PrintItems, Printable;
    ghost var before, text, n := Done(p), Print(v, depth, fmt), |sh.kids|;
    KidCount(sh, v);
    FirstKid(sh);
    var child := item.child;
    if child == null {
      NoItems(depth + 1, fmt);
      out := PutText(p, 3, "[]");
      return;
    }
    var start := p.offset;
    out := PutNext(p, 1, "[", "", before, PrintItems(v.items, 0, depth + 1, fmt) + "]", text);
    if out < 0 {
      return;
    }
    var ok := PrintElements(p, child, depth + 1, fmt, sh, v, start, before, text);
    out := -1;
    if ok {
      out := PutEnd(p, 2, "]", start, before, text);
    }
  }

  /** The loop over the elements. If the last one is lost, the loop still ends regularly. */
  method PrintElements(p: Buffer, first: Item, depth: nat, fmt: bool, ghost sh: Shape, ghost v: Json, ghost start: nat,
                       ghost before: string, ghost text: string)
    returns (ok: bool)
    requires v.Array? && Clear(p, sh, v) && first == sh.node.child && start <= p.offset
    requires Progress(p, before, PrintItems(v.items, 0, depth, fmt) + "]", text)
    modifies p, p.heap, Block(p.buffer)
    ensures p.Valid() && (p.buffer == null || p.buffer == old(p.buffer) || fresh(p.buffer))
    ensures p.buffer != null ==> ok && start <= p.offset && Progress(p, before, "]", text)
    decreases sh, 1
  {
    hide Is, Holds, FootAll, PrintItems, Printable, Progress;
    InProgress(p, before, PrintItems(v.items, 0, depth, fmt) + "]", text);
    KidCount(sh, v);
    FirstKid(sh);
    ghost var c, n := 0, |sh.kids|;
    var child: Item? := first;
    while child != null
      invariant c <= n && child == (if c < n then sh.kids[c].node else null)
      invariant Clear(p, sh, v) && p.Valid() && (p.buffer == null || p.buffer == old(p.buffer) || fresh(p.buffer))
      invariant if p.buffer == null then c == n
        else start <= p.offset && Progress(p, before, PrintItems(v.items, c, depth, fmt) + "]", text)
      decreases n - c
    {
      KidLink(sh, c);
      ok := PrintElement(p, child, depth, fmt, sh, v, c, before, text);
      if !ok {
        return;
      }
      child := child.next;
      c := c + 1;
    }
    ok := true;
    NoMoreItems(v.items, depth, fmt);
  }

  lemma NoItems(depth: nat, fmt: bool)
    ensures PrintItems([], 0, depth, fmt) == ""
  {
  }

  lemma NoMoreItems(items: seq<Json>, depth: nat, fmt: bool)
    ensures PrintItems(items, |items|, depth, fmt) + "]" == "]"
  {
  }

  lemma NextItem(items: seq<Json>, c: nat, depth: nat, fmt: bool)
    requires c < |items|
    ensures PrintItems(items, c, depth, fmt) + "]" ==
      Print(items[c], depth, fmt) + (ItemEnd(c + 1 == |items|, fmt) + (PrintItems(items, c + 1, depth, fmt) + "]"))
  {
    hide Print;
    var a, b, d := Print(items[c], depth, fmt), ItemEnd(c + 1 == |items|, fmt), PrintItems(items, c + 1, depth, fmt);
    Regroup(a, b + d, "]");
    Regroup(b, d, "]");
  }

  /** One round of the loop: an element and, unless it is the last one, a separator. */
  method PrintElement(p: Buffer, child: Item, depth: nat, fmt: bool, ghost sh: Shape, ghost v: Json, ghost c: nat,
                      ghost before: string, ghost text: string)
    returns (ok: bool)
    requires v.Array? && Clear(p, sh, v) && c < |sh.kids| == |v.items| && child == sh.kids[c].node
    requires Progress(p, before, PrintItems(v.items, c, depth, fmt) + "]", text)
    modifies p, p.heap, Block(p.buffer)
    ensures p.Valid() && (p.buffer == null || p.buffer == old(p.buffer) || fresh(p.buffer))
    ensures if p.buffer == null then ok ==> c + 1 == |sh.kids|
      else ok && old(p.offset) <= p.offset && Progress(p, before, PrintItems(v.items, c + 1, depth, fmt) + "]", text)
    decreases sh, 0
  {
    hide Is, Holds, FootAll, Print, PrintItems, Printable;
    KidHolds(sh, v, c);
    KidLink(sh, c);
    PrintableItem(v.items, c);
    NextItem(v.items, c, depth, fmt);
    ghost var rest := PrintItems(v.items, c + 1, depth, fmt) + "]";
    ok := true;
    PrintNext(p, child, depth, fmt, sh.kids[c], v.items[c], before, ItemEnd(c + 1 == |v.items|, fmt) + rest, text);
    if child.next != null {
      var len := if fmt then 2 else 1;
      var at := PutNext(p, len + 1, if fmt then ", " else ",", "\0", before, rest, text);
      ok := at >= 0;
    } else {
      assert "" + rest == rest;
    }
  }

  method PrintObject(p: Buffer, item: Item, depth: nat, fmt: bool, ghost sh: Shape, ghost v: Json) returns (out: int)
    requires v.Object? && Ready(p, sh, v, Print(v, depth, fmt)) && item == sh.node
    modifies p, p.heap, Block(p.buffer)
    ensures Result(p, old(Done(p)), Print(v, depth, fmt), out)
    ensures p.buffer == null || p.buffer == old(p.buffer) || fresh(p.buffer)
    decreases sh, 2
  {
    hide Is, Holds, FootAll, PrintMembers, Printable;
    ghost var before, text, n := Done(p), Print(v, depth, fmt), |sh.kids|;
    KidCount(sh, v);
    FirstKid(sh);
    var child := item.child;
    if child == null {
      out := PutText(p, if fmt then depth + 4 else 3,
        "{" + ((if fmt then "\n" + Tabs(if depth > 0 then depth - 1 else 0) else "") + "}"));
      return;
    }
    var start := p.offset;
    var end := (if fmt then Tabs(depth) else "") + "}";
    var len := if fmt then 2 else 1;
    OpenObject(v.members, depth, fmt);
    out := PutNext(p, len + 1, if fmt then "{\n" else "{", "\0", before, PrintMembers(v.members, 0, depth + 1, fmt) + end, text);
    if out < 0 {
      return;
    }
    var ok := PrintAllMembers(p, child, depth + 1, fmt, sh, v, end, start, before, text);
    out := -1;
    if ok {
      out := PutEnd(p, if fmt then depth + 2 else 2, end, start, before, text);
    }
  }

  /** The loop over the members. */
  method PrintAllMembers(p: Buffer, first: Item, depth: nat, fmt: bool, ghost sh: Shape, ghost v: Json, ghost end: string,
                         ghost start: nat, ghost before: string, ghost text: string)
    returns (ok: bool)
    requires v.Object? && Clear(p, sh, v) && first == sh.node.child && start <= p.offset
    requires Progress(p, before, PrintMembers(v.members, 0, depth, fmt) + end, text)
    modifies p, p.heap, Block(p.buffer)
    ensures p.Valid() && (p.buffer == null || p.buffer == old(p.buffer) || fresh(p.buffer))
    ensures if !ok then p.buffer == null
      else p.buffer != null && start <= p.offset && Progress(p, before, end, text)
    decreases sh, 1
  {
    hide Is, Holds, FootAll, PrintMembers, Printable, Progress;
    InProgress(p, before, PrintMembers(v.members, 0, depth, fmt) + end, text);
    KidCount(sh, v);
    FirstKid(sh);
    ghost var c, n := 0, |sh.kids|;
    var child: Item? := first;
    while child != null
      invariant c <= n && child == (if c < n then sh.kids[c].node else null)
      invariant Clear(p, sh, v) && p.Valid() && (p.buffer == old(p.buffer) || fresh(p.buffer))
      invariant p.buffer != null && start <= p.offset
      invariant Progress(p, before, PrintMembers(v.members, c, depth, fmt) + end, text)
      decreases n - c
    {
      KidLink(sh, c);
      ok := PrintMember(p, child, depth, fmt, sh, v, c, end, before, text);
      if !ok {
        return;
      }
      child := child.next;
      c := c + 1;
    }
    ok := true;
    NoMoreMembers(v.members, depth, fmt, end);
  }

  lemma NoMoreMembers(members: seq<Member>, depth: nat, fmt: bool, end: string)
    ensures PrintMembers(members, |members|, depth, fmt) + end == end
  {
  }

  lemma NextMember(members: seq<Member>, c: nat, depth: nat, fmt: bool, end: string)
    requires c < |members|
    ensures PrintMembers(members, c, depth, fmt) + end ==
      (if fmt then Tabs(depth) else "") + (StringToken.Quote(members[c].key) + ((if fmt then ":\t" else ":") +
      (Print(members[c].value, depth, fmt) +
      (MemberEnd(c + 1 == |members|, fmt) + (PrintMembers(members, c + 1, depth, fmt) + end)))))
  {
    hide Print, StringToken.Quote, Tabs;
    var t, q, colon := if fmt then Tabs(depth) else "", StringToken.Quote(members[c].key), if fmt then ":\t" else ":";
    var a, b := Print(members[c].value, depth, fmt), MemberEnd(c + 1 == |members|, fmt);
    var d := PrintMembers(members, c + 1, depth, fmt);
    Regroup(t + (q + colon), a + (b + d), end);
    Regroup(a, b + d, end);
    Regroup(b, d, end);
    Regroup(t, q + colon, a + (b + (d + end)));
    Regroup(q, colon, a + (b + (d + end)));
  }

  /** A printed string moves the progress on. */
  method PrintNextString(p: Buffer, str: array<char>, ghost s: string, ghost before: string, ghost rest: string,
                         ghost text: string)
    requires HoldsText(str, s)
    requires if p.buffer == null then p.Valid()
      else p.buffer != str && Progress(p, before, StringToken.Quote(s) + rest, text)
    modifies p, p.heap, Block(p.buffer)
    ensures p.Valid() && (p.buffer == null || p.buffer == old(p.buffer) || fresh(p.buffer))
    ensures p.buffer != null ==> old(p.offset) <= p.offset && Progress(p, before, rest, text)
  {
    hide StringToken.Quote;
    ghost var was, t := Done(p), StringToken.Quote(s);
    if p.buffer != null {
      var out := PrintString(p, str, s);
      if p.buffer != null {
        QuoteNoNul(s);
        Advance(p, was, t, out);
        Regroup(was, t, rest);
      }
    }
    if p.buffer == null {
      p.offset := p.Update();
    }
  }

  /** One round of the loop: blanks, key, colon, value and what ends the member. */
  method PrintMember(p: Buffer, child: Item, depth: nat, fmt: bool, ghost sh: Shape, ghost v: Json, ghost c: nat,
                     ghost end: string, ghost before: string, ghost text: string)
    returns (ok: bool)
    requires v.Object? && Clear(p, sh, v) && c < |sh.kids| == |v.members| && child == sh.kids[c].node
    requires Progress(p, before, PrintMembers(v.members, c, depth, fmt) + end, text)
    modifies p, p.heap, Block(p.buffer)
    ensures p.Valid() && (p.buffer == null || p.buffer == old(p.buffer) || fresh(p.buffer))
    ensures if !ok then p.buffer == null
      else p.buffer != null && old(p.offset) <= p.offset && Progress(p, before, PrintMembers(v.members, c + 1, depth, fmt) + end, text)
    decreases sh, 0
  {
    hide Is, Holds, FootAll, Print, PrintMembers, Printable, StringToken.Quote, Tabs;
    KidHolds(sh, v, c);
    KidLink(sh, c);
    KidNamed(sh, v, c);
    PrintableMember(v.members, c);
    NextMember(v.members, c, depth, fmt, end);
    ghost var m := v.members[c];
    ghost var rest4 := PrintMembers(v.members, c + 1, depth, fmt) + end;
    ghost var rest3 := MemberEnd(c + 1 == |v.members|, fmt) + rest4;
    ghost var rest2 := Print(m.value, depth, fmt) + rest3;
    ghost var rest1 := (if fmt then ":\t" else ":") + rest2;
    ok := MemberKey(p, child, depth, fmt, sh.kids[c], m, before, rest1, rest2, text);
    if !ok {
      return;
    }
    PrintNext(p, child, depth, fmt, sh.kids[c], m.value, before, rest3, text);
    var len := (if fmt then 1 else 0) + (if child.next != null then 1 else 0);
    var at := PutNext(p, len + 1, (if child.next != null then "," else "") + (if fmt then "\n" else ""), "\0", before, rest4, text);
    ok := at >= 0;
  }

  /** The blanks, the key and the colon. */
  method MemberKey(p: Buffer, child: Item, depth: nat, fmt: bool, ghost k: Shape, ghost m: Member, ghost before: string,
                   ghost rest1: string, ghost rest2: string, ghost text: string)
    returns (ok: bool)
    requires Is(k) && HoldsMember(k, m) && child == k.node && p !in k.foot && p.heap !in k.foot && p.buffer !in k.foot
    requires Progress(p, before, (if fmt then Tabs(depth) else "") + (StringToken.Quote(m.key) + rest1), text)
    requires rest1 == (if fmt then ":\t" else ":") + rest2
    modifies p, p.heap, Block(p.buffer)
    ensures p.Valid() && (p.buffer == null || p.buffer == old(p.buffer) || fresh(p.buffer))
    ensures if !ok then p.buffer == null else old(p.offset) <= p.offset && Progress(p, before, rest2, text)
  {
    hide Is, Holds, FootAll, StringToken.Quote;
    TextsEnd(k);
    var at;
    if fmt {
      at := PutNext(p, depth, Tabs(depth), "", before, StringToken.Quote(m.key) + rest1, text);
      if at < 0 {
        return false;
      }
    } else {
      assert "" + (StringToken.Quote(m.key) + rest1) == StringToken.Quote(m.key) + rest1;
    }
    PrintNextString(p, child.name, m.key, before, rest1, text);
    at := PutNext(p, if fmt then 2 else 1, if fmt then ":\t" else ":", "", before, rest2, text);
    ok := at >= 0;
  }

  /**
    `cJSON_PrintBuffered`: whatever the initial size, the buffer ends up holding the text of the value from its start
    on, unless an allocation fails. Growing has copied at most as many bytes as the first and the last buffer have.
   */
  method PrintBuffered(h: Heap, item: Item, prebuffer: nat, fmt: bool, ghost sh: Shape, ghost v: Json)
    returns (p: Buffer, out: int)
    requires Is(sh) && Holds(sh, v) && Printable(v) && item == sh.node && h !in sh.foot
    requires |Print(v, 0, fmt)| + 32 <= MAX_SIZE
    modifies h
    ensures fresh(Block(p.buffer)) && h.live == old(h.live) + Block(p.buffer)
    ensures Accounted(out >= 0, false, old(h.failures), h.failures)
    ensures if out < 0 then p.buffer == null
      else out == 0 && p.buffer != null && HoldsText(p.buffer, Print(v, 0, fmt)) && p.copied <= prebuffer + p.buffer.Length
  {
    hide Is, Holds, FootAll, Print, Printable;
    p := new Buffer(h, prebuffer);
    if p.buffer == null {
      return p, -1;
    }
    ghost var buffer := p.buffer;
    out := PrintValue(p, item, 0, fmt, sh, v);
    if out >= 0 {
      PrintNoNul(v, 0, fmt);
    }
  }
}
