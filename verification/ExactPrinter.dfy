/** Printing a tree of nodes into blocks of counted size. */
module ExactPrinter {
  import opened Items
  import opened Json
  import opened Memory
  import opened Printer
  import opened Sequences
  import CString
  import ItemLookup
  import StringEncoder
  import StringToken

  /** A block with the text, or nothing. */
  ghost predicate Outcome(out: array?<char>, s: string)
    reads Block(out)
  {
    out != null ==> HoldsText(out, s)
  }

  /** `malloc` and `strcpy` */
  method NewCopy(h: Heap, size: nat, s: string) returns (out: array?<char>)
    requires |s| < size && NoNul(s)
    modifies h
    ensures Outcome(out, s) && fresh(Block(out)) && h.live == old(h.live) + Block(out)
    ensures Accounted(out != null, false, old(h.failures), h.failures)
  {
    out := h.NewText(size);
    if out != null {
      StringEncoder.Store(out, 0, s + "\0");
      assert out[..|s|] == out[..|s| + 1][..|s|];
    }
  }

  /** `print_string_ptr`: the size of the block is exactly that of the quoted string and its terminator. */
  method PrintString(h: Heap, str: array<char>, ghost s: string) returns (out: array?<char>)
    requires HoldsText(str, s)
    modifies h
    ensures Outcome(out, StringToken.Quote(s)) && fresh(Block(out)) && h.live == old(h.live) + Block(out)
    ensures Accounted(out != null, false, old(h.failures), h.failures)
    ensures out != null ==> out.Length == |StringToken.Quote(s)| + 1
  {
    hide StringToken.Quote;
    var len, flag := StringEncoder.FindEscape(str, s);
    if flag {
      len := StringEncoder.CountEscaped(str, s);
    } else {
      StringEncoder.PlainText(s);
    }
    out := h.NewText(len + 3);
    QuoteNoNul(s);
    if out != null {
      assert out[..0] == "";
      if flag {
        StringEncoder.WriteEscaped(str, s, out, 0);
      } else {
        StringEncoder.WritePlain(str[..len], out, 0);
      }
      assert "" + StringToken.Quote(s) == StringToken.Quote(s);
    }
  }

  // ---------- The pieces of a container ----------

  ghost function Blocks(es: seq<array?<char>>): set<object> {
    set i | 0 <= i < |es| && es[i] != null :: es[i]
  }

  ghost predicate Distinct(es: seq<array?<char>>) {
    forall i, j :: 0 <= i < j < |es| && es[i] != null ==> es[i] != es[j]
  }

  lemma BlocksAppend(es: seq<array?<char>>, e: array?<char>)
    ensures Blocks(es + [e]) == Blocks(es) + Block(e)
    ensures Distinct(es) && (e != null ==> e !in Blocks(es)) ==> Distinct(es + [e])
  {
    var all := es + [e];
    forall o | o in Blocks(es) + Block(e)
      ensures o in Blocks(all)
    {
      if o in Blocks(es) {
        var i :| 0 <= i < |es| && es[i] != null && es[i] == o;
        assert all[i] == o;
      } else {
        assert all[|es|] == o;
      }
    }
  }

  /** A table that has been filled up to a point. */
  ghost predicate FilledTo(t: array<array?<char>>, es: seq<array?<char>>)
    reads t
  {
    |es| <= t.Length && t[..|es|] == es && forall i :: |es| <= i < t.Length ==> t[i] == null
  }

  /** What has not been filled adds nothing. */
  lemma TableBlocks(t: array<array?<char>>, es: seq<array?<char>>)
    requires FilledTo(t, es) && Distinct(es)
    ensures Distinct(t[..]) && Blocks(t[..]) == Blocks(es)
    ensures |es| == t.Length ==> t[..] == es
  {
    forall i | 0 <= i < t.Length
      ensures t[i] == if i < |es| then es[i] else null
    {
      assert i < |es| ==> t[i] == t[..|es|][i];
    }
    forall o | o in Blocks(es)
      ensures o in Blocks(t[..])
    {
      var i :| 0 <= i < |es| && es[i] != null && es[i] == o;
      assert t[..][i] == o;
    }
  }

  method Fill(t: array<array?<char>>, i: nat, e: array?<char>, ghost es: seq<array?<char>>)
    requires FilledTo(t, es) && i == |es| < t.Length
    modifies t
    ensures FilledTo(t, es + [e])
  {
    t[i] := e;
    assert t[..i] == es;
    assert t[..i + 1] == t[..i] + [e];
  }

  /** Frees all the pieces there are. */
  method FreeAll(h: Heap, es: seq<array?<char>>)
    requires Distinct(es) && Blocks(es) <= h.live && h !in Blocks(es)
    modifies h, Blocks(es)
    ensures h.live == old(h.live) - Blocks(es) && h.failures == old(h.failures)
  {
    var i := 0;
    assert Blocks(es[..0]) == {};
    while i < |es|
      invariant i <= |es| && h.live == old(h.live) - Blocks(es[..i]) && h.failures == old(h.failures)
    {
      BlocksAppend(es[..i], es[i]);
      assert es[..i] + [es[i]] == es[..i + 1];
      if es[i] != null {
        h.Free(es[i]);
      }
      i := i + 1;
    }
    assert es[..|es|] == es;
  }

  // ---------- The printer ----------

  method PrintNumber(h: Heap, item: Item, ghost v: Json) returns (out: array?<char>)
    requires v.Number? && Printable(v) && v.mantissa == item.mantissa
    modifies h
    ensures Outcome(out, CString.Signed(v.mantissa)) && fresh(Block(out)) && h.live == old(h.live) + Block(out)
    ensures Accounted(out != null, false, old(h.failures), h.failures)
  {
    PrintNoNul(v, 0, false);
    CString.SignedLength(item.mantissa);
    hide CString.Signed;
    if item.mantissa == 0 {
      SignedZero();
      out := NewCopy(h, 2, "0");
    } else {
      out := NewCopy(h, 21, CString.Signed(item.mantissa));
    }
  }

  lemma SignedZero()
    ensures CString.Signed(0) == "0"
  {
  }

  /**
    The text of the value in a new block, which is all that is left allocated; every piece of a container has been
    freed. Without a block an allocation has failed.
   */
  method PrintValue(h: Heap, item: Item, depth: nat, fmt: bool, ghost sh: Shape, ghost v: Json) returns (out: array?<char>)
    requires Is(sh) && Holds(sh, v) && Printable(v) && item == sh.node && h !in sh.foot
    modifies h
    ensures Outcome(out, Print(v, depth, fmt)) && fresh(Block(out)) && h.live == old(h.live) + Block(out)
    ensures Accounted(out != null, false, old(h.failures), h.failures)
    decreases sh, 4
  {
    hide Is, FootAll, PrintItems, PrintMembers;
    TextsEnd(sh);
    KidCount(sh, v);
    match item.kind
    case KNull => out := NewCopy(h, 5, "null");
    case KFalse => out := NewCopy(h, 6, "false");
    case KTrue => out := NewCopy(h, 5, "true");
    case KNumber => out := PrintNumber(h, item, v);
    case KString => out := PrintString(h, item.valuestring, v.text);
    case KArray => out := PrintArray(h, item, depth, fmt, sh, v);
    case KObject => out := PrintObject(h, item, depth, fmt, sh, v);
  }

  /** The pieces from `i` on hold the texts of the items. */
  ghost predicate ItemTexts(es: seq<array?<char>>, i: nat, items: seq<Json>, depth: nat, fmt: bool)
    reads Blocks(es)
  {
    |es| <= |items| &&
    forall j :: i <= j < |es| ==> es[j] != null && es[j] in Blocks(es) && HoldsText(es[j], Print(items[j], depth, fmt))
  }

  method PrintArray(h: Heap, item: Item, depth: nat, fmt: bool, ghost sh: Shape, ghost v: Json) returns (out: array?<char>)
    requires v.Array? && Is(sh) && Holds(sh, v) && Printable(v) && item == sh.node && h !in sh.foot
    modifies h
    ensures Outcome(out, Print(v, depth, fmt)) && fresh(Block(out)) && h.live == old(h.live) + Block(out)
    ensures Accounted(out != null, false, old(h.failures), h.failures)
    decreases sh, 3
  {
    hide Is, Holds, FootAll, PrintItems, Printable;
    KidCount(sh, v);
    FirstKid(sh);
    if item.child == null {
      EmptyArray(depth, fmt);
      out := NewCopy(h, 3, "[]");
      return;
    }
    ItemLookup.ChildrenLinked(sh);
    var numentries := ItemLookup.GetArraySize(item, sh.kids);
    var entries := h.NewTable(numentries);
    if entries == null {
      return null;
    }
    out := FillArray(h, item, depth, fmt, entries, sh, v);
    h.Free(entries);
  }

  /** The pieces are printed into the table, put together and freed. */
  method FillArray(h: Heap, item: Item, depth: nat, fmt: bool, entries: array<array?<char>>, ghost sh: Shape, ghost v: Json)
    returns (out: array?<char>)
    requires v.Array? && Is(sh) && Holds(sh, v) && Printable(v) && item == sh.node && h !in sh.foot
    requires FilledTo(entries, []) && entries.Length == |v.items| && entries in h.live && entries !in sh.foot
    modifies h, entries
    ensures Outcome(out, Print(v, depth, fmt)) && fresh(Block(out)) && h.live == old(h.live) + Block(out)
    ensures Accounted(out != null, false, old(h.failures), h.failures)
    decreases sh, 2
  {
    hide Is, Holds, FootAll, PrintItems, Printable, ItemTexts;
    var ok, len := CollectItems(h, item, depth + 1, fmt, entries, sh, v);
    out := null;
    if ok {
      out := h.NewText(len);
    }
    if out == null {
      FreeAll(h, entries[..]);
    } else {
      ComposeArray(h, out, entries[..], fmt, v.items, depth + 1);
      PrintNoNul(v, depth, fmt);
    }
  }

  lemma EmptyArray(depth: nat, fmt: bool)
    ensures Print(Array([]), depth, fmt) == "[]"
  {
  }

  /** The loop that prints the items one by one and counts. */
  method CollectItems(h: Heap, item: Item, depth: nat, fmt: bool, entries: array<array?<char>>, ghost sh: Shape, ghost v: Json)
    returns (ok: bool, len: nat)
    requires v.Array? && Is(sh) && Holds(sh, v) && Printable(v) && item == sh.node && h !in sh.foot
    requires FilledTo(entries, []) && entries.Length == |v.items| && entries in h.live && entries !in sh.foot
    modifies h, entries
    ensures Distinct(entries[..]) && fresh(Blocks(entries[..])) && h.live == old(h.live) + Blocks(entries[..])
    ensures Accounted(ok, false, old(h.failures), h.failures)
    ensures ok ==> ItemTexts(entries[..], 0, v.items, depth, fmt) && len > |PrintItems(v.items, 0, depth, fmt)| + 2
    decreases sh, 1
  {
    hide Is, Holds, FootAll, PrintItems, Print, Printable, ItemTexts, Blocks, Distinct, FilledTo;
    NoItemTexts(v.items, depth, fmt);
    KidCount(sh, v);
    FirstKid(sh);
    ghost var es: seq<array?<char>>, n, items := [], |v.items|, v.items;
    len, ok := 5, true;
    var i, child := 0, item.child;
    while child != null && ok
      invariant i == |es| <= n && (ok ==> child == (if i < n then sh.kids[i].node else null))
      invariant FilledTo(entries, es) && Is(sh) && Holds(sh, v)
      invariant Distinct(es) && fresh(Blocks(es)) && h.live == old(h.live) + Blocks(es)
      invariant ok ==> ItemTexts(es, 0, items, depth, fmt)
      invariant ok ==> len + |PrintItems(items, i, depth, fmt)| >= 5 + |PrintItems(items, 0, depth, fmt)|
      invariant Accounted(ok, false, old(h.failures), h.failures)
      decreases n - i, ok
    {
      KidHolds(sh, v, i);
      KidLink(sh, i);
      PrintableItem(items, i);
      var ret := PrintValue(h, child, depth, fmt, sh.kids[i], items[i]);
      child := child.next;
      BlocksAppend(es, ret);
      if ret != null {
        ItemTextsAppend(es, ret, items, depth, fmt);
        ItemLength(items, i, depth, fmt);
        var m := StrLen(ret, Print(items[i], depth, fmt));
        len := len + m + 2 + if fmt then 1 else 0;
      } else {
        ok := false;
      }
      Fill(entries, i, ret, es);
      es, i := es + [ret], i + 1;
    }
    TableBlocks(entries, es);
    if ok {
      NoMoreText(items, depth, fmt);
    }
  }

  lemma NoItemTexts(items: seq<Json>, depth: nat, fmt: bool)
    ensures Blocks([]) == {} && Distinct([]) && ItemTexts([], 0, items, depth, fmt)
  {
  }

  lemma ItemTextsAppend(es: seq<array?<char>>, e: array<char>, items: seq<Json>, depth: nat, fmt: bool)
    requires ItemTexts(es, 0, items, depth, fmt) && |es| < |items| && HoldsText(e, Print(items[|es|], depth, fmt))
    ensures ItemTexts(es + [e], 0, items, depth, fmt)
  {
    hide Blocks, Print;
    BlocksAppend(es, e);
  }

  lemma ItemLength(items: seq<Json>, c: nat, depth: nat, fmt: bool)
    requires c < |items|
    ensures |PrintItems(items, c, depth, fmt)| <=
      |Print(items[c], depth, fmt)| + 1 + (if fmt then 1 else 0) + |PrintItems(items, c + 1, depth, fmt)|
  {
  }

  lemma ItemText(items: seq<Json>, c: nat, depth: nat, fmt: bool)
    requires c < |items|
    ensures var t, sep, rest := Print(items[c], depth, fmt), ItemEnd(c + 1 == |items|, fmt), PrintItems(items, c + 1, depth, fmt);
      && PrintItems(items, c, depth, fmt) + "]" == t + (sep + (rest + "]"))
      && |PrintItems(items, c, depth, fmt)| == |t| + |sep| + |rest|
  {
    hide Print;
    var t, sep, rest := Print(items[c], depth, fmt), ItemEnd(c + 1 == |items|, fmt), PrintItems(items, c + 1, depth, fmt);
    Regroup(t, sep + rest, "]");
    Regroup(sep, rest, "]");
  }

  lemma NoMoreText(items: seq<Json>, depth: nat, fmt: bool)
    ensures PrintItems(items, |items|, depth, fmt) == ""
  {
  }

  /** The items and their separators are put together; each piece is freed when it has been copied. */
  method ComposeArray(h: Heap, out: array<char>, es: seq<array?<char>>, fmt: bool, ghost items: seq<Json>, ghost depth: nat)
    requires |es| == |items| && ItemTexts(es, 0, items, depth, fmt) && Distinct(es)
    requires |PrintItems(items, 0, depth, fmt)| + 2 < out.Length
    requires Blocks(es) <= h.live && h !in Blocks(es) && out !in Blocks(es)
    modifies h, out, Blocks(es)
    ensures h.live == old(h.live) - Blocks(es) && h.failures == old(h.failures)
    ensures var s := "[" + (PrintItems(items, 0, depth, fmt) + "]"); out[..|s|] == s && out[|s|] == '\0'
  {
    hide PrintItems, Print, Blocks;
    ghost var whole := "[" + (PrintItems(items, 0, depth, fmt) + "]");
    StringEncoder.Store(out, 0, "[\0");
    var ptr := 1;
    var i := 0;
    assert out[..1] == out[..2][..1] == "[";
    NoBlocks(es);
    while i < |es|
      invariant i <= |es| && ItemTexts(es, i, items, depth, fmt)
      invariant 0 < ptr && ptr + |PrintItems(items, i, depth, fmt)| + 1 == |whole|
      invariant out[..ptr] + (PrintItems(items, i, depth, fmt) + "]") == whole
      invariant h.live == old(h.live) - Blocks(es[..i]) && h.failures == old(h.failures)
    {
      NextBlock(es, i);
      ptr := ComposeItem(h, out, es, i, ptr, fmt, items, depth, whole);
      i := i + 1;
    }
    NoMoreText(items, depth, fmt);
    assert es[..|es|] == es;
    assert "" + "]" == "]";
    StringEncoder.Store(out, ptr, "]\0");
    assert out[..ptr + 1] == out[..ptr + 2][..ptr + 1];
  }

  lemma NoBlocks(es: seq<array?<char>>)
    ensures Blocks(es[..0]) == {}
  {
  }

  lemma NextBlock(es: seq<array?<char>>, i: nat)
    requires i < |es| && Distinct(es)
    ensures Blocks(es[..i + 1]) == Blocks(es[..i]) + Block(es[i])
    ensures Block(es[i]) !! Blocks(es[..i]) && Block(es[i]) <= Blocks(es)
  {
    BlocksAppend(es[..i], es[i]);
    assert es[..i] + [es[i]] == es[..i + 1];
  }

  /** What is freed of one sequence leaves the next piece of the other one alone. */
  lemma Untouched(ns: seq<array?<char>>, es: seq<array?<char>>, i: nat)
    requires i < |ns| == |es| && Distinct(ns) && Distinct(es) && Blocks(ns) !! Blocks(es)
    ensures Block(ns[i]) !! Blocks(es[..i]) + Block(es[i]) && Block(es[i]) !! Blocks(ns[..i])
  {
    NextBlock(ns, i);
    NextBlock(es, i);
    Within(ns, i);
    Within(es, i);
    hide Blocks, Distinct;
  }

  lemma Within(es: seq<array?<char>>, i: nat)
    requires i <= |es|
    ensures Blocks(es[..i]) <= Blocks(es)
  {
  }

  method ComposeItem(h: Heap, out: array<char>, es: seq<array?<char>>, i: nat, at: nat, fmt: bool, ghost items: seq<Json>,
                     ghost depth: nat, ghost whole: string)
    returns (ptr: nat)
    requires i < |es| == |items| && ItemTexts(es, i, items, depth, fmt) && Distinct(es)
    requires 0 < at && at + |PrintItems(items, i, depth, fmt)| + 1 == |whole| < out.Length
    requires out[..at] + (PrintItems(items, i, depth, fmt) + "]") == whole
    requires Block(es[i]) <= h.live && h !in Blocks(es) && out !in Blocks(es)
    modifies h, out, Block(es[i])
    ensures ItemTexts(es, i + 1, items, depth, fmt)
    ensures 0 < ptr && ptr + |PrintItems(items, i + 1, depth, fmt)| + 1 == |whole|
    ensures out[..ptr] + (PrintItems(items, i + 1, depth, fmt) + "]") == whole
    ensures h.live == old(h.live) - Block(es[i]) && h.failures == old(h.failures)
  {
    hide PrintItems, Print, Blocks;
    ghost var t, sep := Print(items[i], depth, fmt), ItemEnd(i + 1 == |items|, fmt);
    ghost var rest := PrintItems(items, i + 1, depth, fmt) + "]";
    ItemText(items, i, depth, fmt);
    var m := StrLen(es[i], t);
    ghost var before := out[..at];
    StringEncoder.Store(out, at, es[i][..m]);
    ptr := at + m;
    assert before + t + (sep + rest) == before + (t + (sep + rest));
    if i != |es| - 1 {
      StringEncoder.Store(out, ptr, (if fmt then ", " else ",") + "\0");
      assert out[..ptr + |sep|] == out[..ptr + |sep| + 1][..ptr + |sep|];
      assert before + t + sep + rest == before + t + (sep + rest);
      ptr := ptr + if fmt then 2 else 1;
    } else {
      assert sep + rest == rest;
    }
    h.Free(es[i]);
  }

  // ---------- Objects ----------

  /** The pieces from `i` on hold the quoted keys and the texts of the values. */
  ghost predicate MemberTexts(ns: seq<array?<char>>, es: seq<array?<char>>, i: nat, members: seq<Member>, depth: nat, fmt: bool)
    reads Blocks(ns), Blocks(es)
  {
    |ns| == |es| <= |members| && forall j :: i <= j < |es| ==>
      && ns[j] != null && ns[j] in Blocks(ns) && HoldsText(ns[j], StringToken.Quote(members[j].key))
      && es[j] != null && es[j] in Blocks(es) && HoldsText(es[j], Print(members[j].value, depth, fmt))
  }

  method PrintObject(h: Heap, item: Item, depth: nat, fmt: bool, ghost sh: Shape, ghost v: Json) returns (out: array?<char>)
    requires v.Object? && Is(sh) && Holds(sh, v) && Printable(v) && item == sh.node && h !in sh.foot
    modifies h
    ensures Outcome(out, Print(v, depth, fmt)) && fresh(Block(out)) && h.live == old(h.live) + Block(out)
    ensures Accounted(out != null, false, old(h.failures), h.failures)
    decreases sh, 3
  {
    hide Is, Holds, FootAll, PrintMembers, Printable;
    KidCount(sh, v);
    FirstKid(sh);
    PrintNoNul(v, depth, fmt);
    if item.child == null {
      out := NewCopy(h, if fmt then depth + 4 else 3,
        "{" + ((if fmt then "\n" + Tabs(if depth > 0 then depth - 1 else 0) else "") + "}"));
      return;
    }
    ItemLookup.ChildrenLinked(sh);
    var numentries := ItemLookup.GetArraySize(item, sh.kids);
    var entries := h.NewTable(numentries);
    if entries == null {
      return null;
    }
    var names := h.NewTable(numentries);
    if names == null {
      h.Free(entries);
      return null;
    }
    out := FillObject(h, item, depth, fmt, names, entries, sh, v);
    h.Free(names);
    h.Free(entries);
  }

  /** The pieces are printed into the tables, put together and freed. */
  method FillObject(h: Heap, item: Item, depth: nat, fmt: bool, names: array<array?<char>>, entries: array<array?<char>>,
                    ghost sh: Shape, ghost v: Json)
    returns (out: array?<char>)
    requires v.Object? && Is(sh) && Holds(sh, v) && Printable(v) && item == sh.node && h !in sh.foot && v.members != []
    requires Tables(h, names, entries, sh, |v.members|)
    modifies h, names, entries
    ensures Outcome(out, Print(v, depth, fmt)) && fresh(Block(out)) && h.live == old(h.live) + Block(out)
    ensures Accounted(out != null, false, old(h.failures), h.failures)
    decreases sh, 2
  {
    hide Is, Holds, FootAll, PrintMembers, Printable, MemberTexts;
    PrintNoNul(v, depth, fmt);
    var ok, len := CollectMembers(h, item, depth + 1, fmt, names, entries, sh, v);
    out := null;
    if ok {
      out := h.NewText(len);
    }
    if out == null {
      FreeAll(h, names[..]);
      FreeAll(h, entries[..]);
    } else {
      OpenObject(v.members, depth, fmt);
      ComposeObject(h, out, names[..], entries[..], depth + 1, fmt, v.members);
    }
  }

  /** Two tables that have been cleared. */
  ghost predicate Tables(h: Heap, names: array<array?<char>>, entries: array<array?<char>>, sh: Shape, n: nat)
    reads h, names, entries
  {
    && names != entries && names.Length == entries.Length == n && FilledTo(names, []) && FilledTo(entries, [])
    && names in h.live && entries in h.live && names !in sh.foot && entries !in sh.foot
  }

  /** The loop that prints keys and values one by one and counts; it goes on behind a failure. */
  method CollectMembers(h: Heap, item: Item, depth: nat, fmt: bool, names: array<array?<char>>, entries: array<array?<char>>,
                        ghost sh: Shape, ghost v: Json)
    returns (ok: bool, len: nat)
    requires v.Object? && Is(sh) && Holds(sh, v) && Printable(v) && item == sh.node && h !in sh.foot
    requires Tables(h, names, entries, sh, |v.members|)
    modifies h, names, entries
    ensures Distinct(names[..]) && Distinct(entries[..]) && Blocks(names[..]) !! Blocks(entries[..])
    ensures fresh(Blocks(names[..])) && fresh(Blocks(entries[..]))
    ensures h.live == old(h.live) + Blocks(names[..]) + Blocks(entries[..])
    ensures Accounted(ok, false, old(h.failures), h.failures)
    ensures ok ==> MemberTexts(names[..], entries[..], 0, v.members, depth, fmt)
    ensures ok ==> len > |PrintMembers(v.members, 0, depth, fmt)| + 4 + (if fmt then depth else 0)
    decreases sh, 1
  {
    hide Is, Holds, FootAll, PrintMembers, Print, Printable, StringToken.Quote, MemberTexts, Blocks, Distinct, FilledTo,
      HoldsText;
    NoPieces(v.members, depth, fmt);
    KidCount(sh, v);
    FirstKid(sh);
    ghost var n, members := |v.members|, v.members;
    ghost var ns: seq<array?<char>>, es: seq<array?<char>> := [], [];
    ok := true;
    len := 7 + if fmt then depth else 0;
    ghost var len0 := len;
    var i, child := 0, item.child;
    while child != null
      invariant i == |ns| == |es| <= n && child == (if i < n then sh.kids[i].node else null)
      invariant FilledTo(names, ns) && FilledTo(entries, es) && Is(sh) && Holds(sh, v)
      invariant Distinct(ns) && Distinct(es) && Blocks(ns) !! Blocks(es) && fresh(Blocks(ns)) && fresh(Blocks(es))
      invariant h.live == old(h.live) + Blocks(ns) + Blocks(es)
      invariant ok ==> MemberTexts(ns, es, 0, members, depth, fmt)
      invariant ok ==> len + |PrintMembers(members, i, depth, fmt)| >= len0 + |PrintMembers(members, 0, depth, fmt)|
      invariant Accounted(ok, false, old(h.failures), h.failures)
      decreases n - i
    {
      KidLink(sh, i);
      var str, ret, m := PrintPair(h, child, depth, fmt, sh, v, i);
      child := child.next;
      PairAppend(ns, es, str, ret);
      ok := ok && str != null && ret != null;
      if ok {
        TextsAppend(ns, es, str, ret, members, depth, fmt);
      }
      len := len + m;
      Fill(names, i, str, ns);
      Fill(entries, i, ret, es);
      ns, es, i := ns + [str], es + [ret], i + 1;
    }
    TableBlocks(names, ns);
    TableBlocks(entries, es);
    if ok {
      NoMoreMemberText(members, depth, fmt);
    }
  }

  /** Enough for a key, its value and what stands around them. */
  method PairLength(str: array<char>, ret: array<char>, depth: nat, fmt: bool, ghost members: seq<Member>, ghost c: nat)
    returns (m: nat)
    requires c < |members| && HoldsText(str, StringToken.Quote(members[c].key))
    requires HoldsText(ret, Print(members[c].value, depth, fmt))
    ensures |PrintMembers(members, c, depth, fmt)| <= m + |PrintMembers(members, c + 1, depth, fmt)|
  {
    hide PrintMembers, Print, StringToken.Quote;
    MemberLength(members, c, depth, fmt);
    var m1 := StrLen(ret, Print(members[c].value, depth, fmt));
    var m2 := StrLen(str, StringToken.Quote(members[c].key));
    m := m1 + m2 + 2 + if fmt then 2 + depth else 0;
  }

  lemma NoPieces(members: seq<Member>, depth: nat, fmt: bool)
    ensures Blocks([]) == {} && Distinct([]) && MemberTexts([], [], 0, members, depth, fmt)
  {
  }

  lemma PairAppend(ns: seq<array?<char>>, es: seq<array?<char>>, str: array?<char>, ret: array?<char>)
    requires Distinct(ns) && Distinct(es) && Blocks(ns) !! Blocks(es) && Block(str) !! Block(ret)
    requires Block(str) + Block(ret) !! Blocks(ns) + Blocks(es)
    ensures Distinct(ns + [str]) && Distinct(es + [ret]) && Blocks(ns + [str]) !! Blocks(es + [ret])
    ensures Blocks(ns + [str]) == Blocks(ns) + Block(str) && Blocks(es + [ret]) == Blocks(es) + Block(ret)
  {
    BlocksAppend(ns, str);
    BlocksAppend(es, ret);
    hide Blocks, Distinct;
  }

  lemma TextsAppend(ns: seq<array?<char>>, es: seq<array?<char>>, str: array<char>, ret: array<char>, members: seq<Member>,
                    depth: nat, fmt: bool)
    requires MemberTexts(ns, es, 0, members, depth, fmt) && |es| < |members|
    requires HoldsText(str, StringToken.Quote(members[|es|].key)) && HoldsText(ret, Print(members[|es|].value, depth, fmt))
    ensures MemberTexts(ns + [str], es + [ret], 0, members, depth, fmt)
  {
    hide Blocks, Print, StringToken.Quote;
    BlocksAppend(ns, str);
    BlocksAppend(es, ret);
  }

  method PrintPair(h: Heap, child: Item, depth: nat, fmt: bool, ghost sh: Shape, ghost v: Json, ghost c: nat)
    returns (str: array?<char>, ret: array?<char>, m: nat)
    requires v.Object? && Is(sh) && Holds(sh, v) && Printable(v) && h !in sh.foot && c < |sh.kids| == |v.members|
    requires child == sh.kids[c].node
    modifies h
    ensures Outcome(str, StringToken.Quote(v.members[c].key))
    ensures Outcome(ret, Print(v.members[c].value, depth, fmt))
    ensures fresh(Block(str)) && fresh(Block(ret)) && Block(str) !! Block(ret)
    ensures h.live == old(h.live) + Block(str) + Block(ret)
    ensures Accounted(str != null && ret != null, false, old(h.failures), h.failures)
    ensures str != null && ret != null ==>
      |PrintMembers(v.members, c, depth, fmt)| <= m + |PrintMembers(v.members, c + 1, depth, fmt)|
    decreases sh, 0
  {
    hide Is, Holds, FootAll, Print, PrintMembers, Printable, StringToken.Quote;
    KidHolds(sh, v, c);
    KidNamed(sh, v, c);
    PrintableMember(v.members, c);
    TextsEnd(sh.kids[c]);
    str := PrintString(h, child.name, v.members[c].key);
    ret := PrintValue(h, child, depth, fmt, sh.kids[c], v.members[c].value);
    m := 0;
    if str != null && ret != null {
      m := PairLength(str, ret, depth, fmt, v.members, c);
    }
  }

  lemma MemberLength(members: seq<Member>, c: nat, depth: nat, fmt: bool)
    requires c < |members|
    ensures |PrintMembers(members, c, depth, fmt)| <= |StringToken.Quote(members[c].key)| +
      |Print(members[c].value, depth, fmt)| + 2 + (if fmt then 2 + depth else 0) + |PrintMembers(members, c + 1, depth, fmt)|
  {
    hide Print, StringToken.Quote;
  }

  lemma NoMoreMemberText(members: seq<Member>, depth: nat, fmt: bool)
    ensures PrintMembers(members, |members|, depth, fmt) == ""
  {
  }

  /** The members are put together; the pieces are freed when they have been copied. */
  method ComposeObject(h: Heap, out: array<char>, ns: seq<array?<char>>, es: seq<array?<char>>, depth: nat, fmt: bool,
                       ghost members: seq<Member>)
    requires depth > 0 && |ns| == |es| == |members| && MemberTexts(ns, es, 0, members, depth, fmt)
    requires Distinct(ns) && Distinct(es) && Blocks(ns) !! Blocks(es)
    requires |PrintMembers(members, 0, depth, fmt)| + 4 + (if fmt then depth else 0) < out.Length
    requires Blocks(ns) + Blocks(es) <= h.live && h !in Blocks(ns) + Blocks(es) && out !in Blocks(ns) + Blocks(es)
    modifies h, out, Blocks(ns), Blocks(es)
    ensures h.live == old(h.live) - Blocks(ns) - Blocks(es) && h.failures == old(h.failures)
    ensures var s := (if fmt then "{\n" else "{") +
        (PrintMembers(members, 0, depth, fmt) + ((if fmt then Tabs(depth - 1) else "") + "}"));
      out[..|s|] == s && out[|s|] == '\0'
  {
    hide PrintMembers, Print, Blocks, StringToken.Quote, MemberTexts, Distinct;
    var open, end := if fmt then "{\n" else "{", (if fmt then Tabs(depth - 1) else "") + "}";
    ghost var whole := open + (PrintMembers(members, 0, depth, fmt) + end);
    assert out[..0] + whole == whole;
    var ptr := StringEncoder.StoreNext(out, 0, open, "\0", PrintMembers(members, 0, depth, fmt) + end, whole);
    NoBlocks(ns);
    NoBlocks(es);
    var i := 0;
    while i < |es|
      invariant i <= |es| && MemberTexts(ns, es, i, members, depth, fmt)
      invariant ptr >= 0 && ptr + |PrintMembers(members, i, depth, fmt)| + |end| == |whole| < out.Length
      invariant out[..ptr] + (PrintMembers(members, i, depth, fmt) + end) == whole
      invariant h.live == old(h.live) - Blocks(ns[..i]) - Blocks(es[..i]) && h.failures == old(h.failures)
    {
      NextBlock(ns, i);
      NextBlock(es, i);
      Untouched(ns, es, i);
      ptr := ComposeMember(h, out, ns, es, i, ptr, depth, fmt, members, end, whole);
      i := i + 1;
    }
    NoMoreMemberText(members, depth, fmt);
    assert es[..|es|] == es && ns[..|ns|] == ns;
    assert "" + end == end && end + "" == end;
    ptr := StringEncoder.StoreNext(out, ptr, end, "\0", "", whole);
    assert out[..ptr] + "" == out[..ptr];
  }

  lemma MemberText(members: seq<Member>, c: nat, depth: nat, fmt: bool, end: string)
    requires c < |members|
    ensures var start := if fmt then Tabs(depth) else "";
      var q, colon := StringToken.Quote(members[c].key), if fmt then ":\t" else ":";
      var t, sep := Print(members[c].value, depth, fmt), MemberEnd(c + 1 == |members|, fmt);
      var rest := PrintMembers(members, c + 1, depth, fmt);
      && PrintMembers(members, c, depth, fmt) + end == start + (q + (colon + (t + (sep + (rest + end)))))
      && |PrintMembers(members, c, depth, fmt)| == |start| + |q| + |colon| + |t| + |sep| + |rest|
  {
    hide Print, StringToken.Quote, Tabs;
    var start, q, colon := if fmt then Tabs(depth) else "", StringToken.Quote(members[c].key), if fmt then ":\t" else ":";
    var t, sep := Print(members[c].value, depth, fmt), MemberEnd(c + 1 == |members|, fmt);
    var rest := PrintMembers(members, c + 1, depth, fmt);
    Regroup(start + (q + colon), t + (sep + rest), end);
    Regroup(t, sep + rest, end);
    Regroup(sep, rest, end);
    Regroup(start, q + colon, t + (sep + (rest + end)));
    Regroup(q, colon, t + (sep + (rest + end)));
  }

  method ComposeMember(h: Heap, out: array<char>, ns: seq<array?<char>>, es: seq<array?<char>>, i: nat, at: nat, depth: nat,
                       fmt: bool, ghost members: seq<Member>, ghost end: string, ghost whole: string)
    returns (ptr: nat)
    requires i < |ns| == |es| == |members| && MemberTexts(ns, es, i, members, depth, fmt)
    requires Distinct(ns) && Distinct(es) && Blocks(ns) !! Blocks(es)
    requires at + |PrintMembers(members, i, depth, fmt)| + |end| == |whole| < out.Length
    requires out[..at] + (PrintMembers(members, i, depth, fmt) + end) == whole
    requires Block(ns[i]) <= h.live && Block(es[i]) <= h.live
    requires h !in Blocks(ns) + Blocks(es) && out !in Blocks(ns) + Blocks(es)
    modifies h, out, Block(ns[i]), Block(es[i])
    ensures MemberTexts(ns, es, i + 1, members, depth, fmt)
    ensures ptr + |PrintMembers(members, i + 1, depth, fmt)| + |end| == |whole|
    ensures out[..ptr] + (PrintMembers(members, i + 1, depth, fmt) + end) == whole
    ensures h.live == old(h.live) - Block(ns[i]) - Block(es[i]) && h.failures == old(h.failures)
  {
    hide PrintMembers, Print, Blocks, StringToken.Quote;
    ptr := CopyMember(out, ns[i], es[i], i == |es| - 1, at, depth, fmt, i, members, end, whole);
    h.Free(ns[i]);
    h.Free(es[i]);
  }

  /** One member is written from its two pieces, with what stands around them. */
  method CopyMember(out: array<char>, str: array<char>, ret: array<char>, last: bool, at: nat, depth: nat, fmt: bool,
                    ghost i: nat, ghost members: seq<Member>, ghost end: string, ghost whole: string)
    returns (ptr: nat)
    requires i < |members| && (last <==> i + 1 == |members|)
    requires out != str && out != ret && HoldsText(str, StringToken.Quote(members[i].key))
    requires HoldsText(ret, Print(members[i].value, depth, fmt))
    requires at + |PrintMembers(members, i, depth, fmt)| + |end| == |whole| < out.Length
    requires out[..at] + (PrintMembers(members, i, depth, fmt) + end) == whole
    modifies out
    ensures ptr + |PrintMembers(members, i + 1, depth, fmt)| + |end| == |whole|
    ensures out[..ptr] + (PrintMembers(members, i + 1, depth, fmt) + end) == whole
  {
    hide PrintMembers, Print, StringToken.Quote, Tabs;
    MemberText(members, i, depth, fmt, end);
    ghost var q, t := StringToken.Quote(members[i].key), Print(members[i].value, depth, fmt);
    ghost var rest := PrintMembers(members, i + 1, depth, fmt) + end;
    var start, colon := if fmt then Tabs(depth) else "", if fmt then ":\t" else ":";
    var sep := (if last then "" else ",") + (if fmt then "\n" else "");
    ptr := StringEncoder.StoreNext(out, at, start, "", q + (colon + (t + (sep + rest))), whole);
    var m := StrLen(str, q);
    ptr := StringEncoder.StoreNext(out, ptr, str[..m], "", colon + (t + (sep + rest)), whole);
    ptr := StringEncoder.StoreNext(out, ptr, colon, "", t + (sep + rest), whole);
    m := StrLen(ret, t);
    ptr := StringEncoder.StoreNext(out, ptr, ret[..m], "\0", sep + rest, whole);
    ptr := StringEncoder.StoreNext(out, ptr, sep, "\0", rest, whole);
  }
}
