/** References, and `cJSON_Duplicate`: a copy that shares nothing with its source. */
module ItemCopy {
  import opened ItemLists
  import opened Items
  import opened Json
  import opened Memory

  /** Whatever text the one block holds, the other holds too. */
  ghost predicate SameText(a: array?<char>, b: array?<char>)
    reads Block(a), Block(b)
  {
    if a == null then b == null
    else b != null && '\0' in b[..] && forall s :: HoldsText(a, s) ==> HoldsText(b, s)
  }

  /** `cJSON_strdup` */
  method StrDup(h: Heap, str: array<char>) returns (copy: array?<char>)
    requires '\0' in str[..]
    modifies h
    ensures Accounted(copy != null, false, old(h.failures), h.failures)
    ensures copy == null ==> h.live == old(h.live)
    ensures copy != null ==> fresh(copy) && h.live == old(h.live) + {copy}
    ensures copy != null ==> SameText(str, copy)
  {
    var len := 0;
    while str[len] != '\0'
      invariant len < str.Length && '\0' !in str[..len] && '\0' in str[len..]
      decreases str.Length - len
    {
      assert str[len..] == [str[len]] + str[len + 1..];
      assert str[..len + 1] == str[..len] + [str[len]];
      len := len + 1;
    }
    copy := h.NewText(len + 1);
    if copy != null {
      forall i | 0 <= i <= len {
        copy[i] := str[i];
      }
      assert copy[..][len] == '\0';
      SameAs(str, copy, len);
    }
  }

  lemma SameAs(a: array<char>, b: array<char>, len: nat)
    requires len < a.Length && len < b.Length && a[len] == '\0' && '\0' !in a[..len]
    requires forall i :: 0 <= i <= len ==> b[i] == a[i]
    ensures forall s :: HoldsText(a, s) ==> HoldsText(b, s)
  {
    forall s | HoldsText(a, s)
      ensures HoldsText(b, s)
    {
    }
  }

  // ---------- What is found from a node on ----------

  /** The nodes and strings that are found from a node on. Unlike in a `Shape` they may be found more than once. */
  datatype View = View(node: Item, text: array?<char>, name: array?<char>, kids: seq<View>)

  ghost function Reach(w: View): set<object>
    decreases w
  {
    {w.node} + Block(w.text) + Block(w.name) + ReachAll(w.kids)
  }

  ghost function ReachAll(ws: seq<View>): set<object>
    decreases ws
  {
    set i, o | 0 <= i < |ws| && o in Reach(ws[i]) :: o
  }

  ghost predicate Chain(first: Item?, ws: seq<View>)
    reads ReachAll(ws)
  {
    && first == (if ws == [] then null else ws[0].node)
    && forall i {:trigger ws[i].node.next} :: 0 <= i < |ws| ==>
         ws[i].node in Reach(ws[i]) && ws[i].node.next == if i + 1 < |ws| then ws[i + 1].node else null
  }

  /** What is found from the node on represents the value, whoever owns it. */
  ghost predicate Shows(w: View, v: Json)
    reads Reach(w)
    decreases w, 0
  {
    && w.node.valuestring == w.text && w.node.name == w.name
    && (w.text != null ==> '\0' in w.text[..]) && (w.name != null ==> '\0' in w.name[..])
    && Chain(w.node.child, w.kids)
    && match v
       case Null => w.node.kind == KNull && w.kids == []
       case False => w.node.kind == KFalse && w.kids == []
       case True => w.node.kind == KTrue && w.kids == []
       case Number(m, e) => w.node.kind == KNumber && w.node.mantissa == m && w.node.exponent == e && w.kids == []
       case String(s) => w.node.kind == KString && w.kids == [] && w.text != null && HoldsText(w.text, s)
       case Array(items) =>
         && w.node.kind == KArray && |w.kids| == |items|
         && forall i :: 0 <= i < |items| ==> Shows(w.kids[i], items[i])
       case Object(members) =>
         && w.node.kind == KObject && |w.kids| == |members|
         && forall i :: 0 <= i < |members| ==> ShowsMember(w.kids[i], members[i])
  }

  ghost predicate ShowsMember(w: View, m: Member)
    reads Reach(w)
    decreases w, 1
  {
    w.name != null && HoldsText(w.name, m.key) && Shows(w, m.value)
  }

  function ViewOf(sh: Shape): View {
    View(sh.node, sh.text, sh.name, seq(|sh.kids|, i requires 0 <= i < |sh.kids| => ViewOf(sh.kids[i])))
  }

  /** A tree shows the value that it represents. */
  lemma {:induction false} TreeShows(sh: Shape, v: Json)
    requires Is(sh) && Holds(sh, v)
    ensures Reach(ViewOf(sh)) <= sh.foot && Shows(ViewOf(sh), v)
    decreases sh
  {
    hide Is, Holds, FootAll, Reach, ReachAll, Shows, Chain;
    KidCount(sh, v);
    forall i | 0 <= i < |sh.kids|
      ensures Reach(ViewOf(sh.kids[i])) <= sh.foot && Shows(ViewOf(sh.kids[i]), KidValues(v)[i])
    {
      KidHolds(sh, v, i);
      TreeShows(sh.kids[i], KidValues(v)[i]);
    }
    TextsEnd(sh);
    NodeIn(sh);
    ReachParts(sh);
    TreeChain(sh);
    NodeShows(sh, v);
  }

  lemma ReachAllocated(w: View)
    ensures forall o :: o in Reach(w) ==> allocated(o)
    decreases w
  {
    forall o | o in Reach(w)
      ensures allocated(o)
    {
      if o in ReachAll(w.kids) {
        var i :| 0 <= i < |w.kids| && o in Reach(w.kids[i]);
        ReachAllocated(w.kids[i]);
      }
    }
  }

  lemma ReachParts(sh: Shape)
    requires Block(sh.text) <= sh.foot && Block(sh.name) <= sh.foot && sh.node in sh.foot
    requires forall i :: 0 <= i < |sh.kids| ==> Reach(ViewOf(sh.kids[i])) <= sh.foot
    ensures Reach(ViewOf(sh)) <= sh.foot
  {
  }

  lemma TreeChain(sh: Shape)
    requires Is(sh) && !sh.node.isReference
    ensures Chain(sh.node.child, ViewOf(sh).kids)
  {
    hide Is;
    FirstKid(sh);
    forall i {:trigger ViewOf(sh).kids[i]} | 0 <= i < |sh.kids|
      ensures sh.kids[i].node.next == if i + 1 < |sh.kids| then sh.kids[i + 1].node else null
    {
      KidLink(sh, i);
    }
  }

  lemma NodeShows(sh: Shape, v: Json)
    requires Is(sh) && Holds(sh, v) && |KidValues(v)| == |sh.kids| && !sh.node.isReference
    requires sh.node.valuestring == sh.text && sh.node.name == sh.name
    requires (sh.text != null ==> '\0' in sh.text[..]) && (sh.name != null ==> '\0' in sh.name[..])
    requires Chain(sh.node.child, ViewOf(sh).kids)
    requires forall i :: 0 <= i < |sh.kids| ==> Shows(ViewOf(sh.kids[i]), KidValues(v)[i])
    ensures Shows(ViewOf(sh), v)
  {
    hide Is, FootAll, Chain, Reach, ReachAll;
    if v.Object? {
      forall i | 0 <= i < |sh.kids|
        ensures ShowsMember(ViewOf(sh).kids[i], v.members[i])
      {
        KidNamed(sh, v, i);
        assert KidValues(v)[i] == v.members[i].value;
      }
    }
  }

  // ---------- References ----------

  /**
    `create_reference`: a node without a name that shows the contents of another one and owns none of them.
   */
  method CreateReference(h: Heap, item: Item, ghost w: View, ghost v: Json) returns (ref: Item?)
    requires Shows(w, v) && item == w.node && h !in Reach(w)
    modifies h
    ensures Accounted(ref != null, false, old(h.failures), h.failures)
    ensures ref == null ==> h.live == old(h.live)
    ensures ref != null ==>
      && fresh(ref) && h.live == old(h.live) + {ref} && ref.isReference && ref.next == null && ref.prev == null
      && Is(Make(ref, null, null, [])) && Make(ref, null, null, []).foot == {ref}
      && Shows(View(ref, w.text, null, w.kids), v)
  {
    hide Is, Shows, Reach;
    ReachAllocated(w);
    FirstShown(w, v);
    ref := NewItem(h);
    if ref != null {
      ref.kind, ref.mantissa, ref.exponent, ref.child, ref.valuestring :=
        item.kind, item.mantissa, item.exponent, item.child, item.valuestring;
      ref.isReference := true;
      ReferenceIs(ref);
      SameShows(w, View(ref, w.text, null, w.kids), v);
    }
  }

  lemma ReferenceIs(ref: Item)
    requires ref.isReference && ref.name == null
    ensures Is(Make(ref, null, null, [])) && Make(ref, null, null, []).foot == {ref}
  {
    NoFoot();
  }

  lemma SameShows(w: View, u: View, v: Json)
    requires Shows(w, v) && u == View(u.node, w.text, null, w.kids)
    requires u.node.kind == w.node.kind && u.node.mantissa == w.node.mantissa && u.node.exponent == w.node.exponent
    requires u.node.child == w.node.child && u.node.valuestring == w.text && u.node.name == null
    ensures Shows(u, v)
  {
    hide Chain, Reach, ReachAll;
  }

  // ---------- Copying ----------

  ghost predicate Named(ks: seq<Shape>, source: seq<View>)
    reads set k | k in ks && k.name != null :: k.name
    reads set k | k in source && k.name != null :: k.name
  {
    |ks| <= |source| && forall i :: 0 <= i < |ks| ==> SameText(source[i].name, ks[i].name)
  }

  lemma KidShows(w: View, v: Json, i: nat)
    requires Shows(w, v) && i < |w.kids|
    ensures |KidValues(v)| == |w.kids| && Shows(w.kids[i], KidValues(v)[i]) && Reach(w.kids[i]) <= Reach(w)
    ensures w.kids[i].node in Reach(w)
    ensures w.kids[i].node.next == if i + 1 < |w.kids| then w.kids[i + 1].node else null
  {
    hide SameText;
  }

  lemma FirstShown(w: View, v: Json)
    requires Shows(w, v)
    ensures |KidValues(v)| == |w.kids| && w.node.child == if w.kids == [] then null else w.kids[0].node
    ensures w.node.valuestring == w.text && w.node.name == w.name && w.node in Reach(w)
    ensures (w.text != null ==> '\0' in w.text[..]) && (w.name != null ==> '\0' in w.name[..])
  {
  }

  /** The copy of a node without its children; on failure nothing is left of it. */
  method CopyNode(h: Heap, item: Item, ghost w: View, ghost v: Json) returns (n: Item?)
    requires Shows(w, v) && item == w.node && h !in Reach(w)
    modifies h
    ensures Accounted(n != null, false, old(h.failures), h.failures)
    ensures n == null ==> h.live == old(h.live)
    ensures n != null ==>
      && fresh(n) && fresh(Block(n.valuestring)) && fresh(Block(n.name)) && Block(n.name) !! Block(n.valuestring)
      && h.live == old(h.live) + {n} + Block(n.valuestring) + Block(n.name)
      && n.next == null && n.prev == null && n.child == null && !n.isReference
      && (n.valuestring != null ==> '\0' in n.valuestring[..]) && (n.name != null ==> '\0' in n.name[..])
      && n.kind == item.kind && n.mantissa == item.mantissa && n.exponent == item.exponent
      && SameText(w.text, n.valuestring) && SameText(w.name, n.name)
  {
    hide Shows, SameText, Reach;
    ReachAllocated(w);
    FirstShown(w, v);
    n := NewItem(h);
    if n == null {
      return;
    }
    n.kind, n.mantissa, n.exponent := item.kind, item.mantissa, item.exponent;
    var ok := CopyTexts(h, n, item);
    if !ok {
      DeleteLeaf(h, n);
      n := null;
    }
  }

  method CopyTexts(h: Heap, n: Item, item: Item) returns (ok: bool)
    requires n != item && n.valuestring == null && n.name == null
    requires item.valuestring != null ==> '\0' in item.valuestring[..]
    requires item.name != null ==> '\0' in item.name[..]
    modifies h, n`valuestring, n`name
    ensures h.live == old(h.live) + Block(n.valuestring) + Block(n.name) && Block(n.name) !! Block(n.valuestring)
    ensures fresh(Block(n.valuestring)) && fresh(Block(n.name))
    ensures (n.valuestring != null ==> '\0' in n.valuestring[..]) && (n.name != null ==> '\0' in n.name[..])
    ensures Accounted(ok, false, old(h.failures), h.failures)
    ensures if ok then SameText(item.valuestring, n.valuestring) && SameText(item.name, n.name) else n.name == null
  {
    hide HoldsText;
    ok, n.valuestring := CopyText(h, item.valuestring);
    if ok {
      ok, n.name := CopyText(h, item.name);
    }
  }

  /** Copies a string if there is one; `ok` is false if that fails. */
  method CopyText(h: Heap, str: array?<char>) returns (ok: bool, copy: array?<char>)
    requires str != null ==> '\0' in str[..]
    modifies h
    ensures h.live == old(h.live) + Block(copy) && fresh(Block(copy)) && (copy != null ==> '\0' in copy[..])
    ensures Accounted(ok, false, old(h.failures), h.failures)
    ensures if ok then SameText(str, copy) else copy == null
  {
    ok, copy := true, null;
    if str != null {
      copy := StrDup(h, str);
      ok := copy != null;
    }
  }

  method DeleteLeaf(h: Heap, n: Item)
    requires n.next == null && n.child == null && n.name == null && !n.isReference && (n.valuestring != null ==> '\0' in n.valuestring[..])
    requires {n} + Block(n.valuestring) <= h.live && h !in Block(n.valuestring)
    modifies h, n, Block(n.valuestring)
    ensures h.live == old(h.live) - {n} - Block(old(n.valuestring)) && h.failures == old(h.failures)
  {
    ghost var k := Make(n, n.valuestring, null, []);
    LeafIs(n, n.valuestring, null);
    Single(k);
    NoFoot();
    hide *;
    Delete(h, n, [k]);
  }

  /** The loop over the children of the source; `n` is the copy that gets the new children. */
  method CopyKids(h: Heap, n: Item, item: Item, ghost w: View, ghost v: Json) returns (ok: bool, ghost ks: seq<Shape>)
    requires Shows(w, v) && item == w.node && h !in Reach(w) && n !in Reach(w) && n.child == null
    modifies h, n`child
    ensures |ks| <= |w.kids| == |KidValues(v)| && Children(n, ks, KidValues(v)[..|ks|])
    ensures fresh(FootAll(ks)) && h.live == old(h.live) + FootAll(ks)
    ensures Named(ks, w.kids)
    ensures Accounted(ok, false, old(h.failures), h.failures) && (ok ==> |ks| == |w.kids|)
    decreases w, 1
  {
    hide Shows, Reach, Is, Holds, FootAll, Apart, LinkedTo, SameText, KidValues, Named;
    ReachAllocated(w);
    NamedNone(w.kids);
    FirstShown(w, v);
    ghost var vs := KidValues(v);
    var cptr := item.child;
    var nptr: Item? := null;
    ks := [];
    NoKids(n.child);
    while cptr != null
      invariant |ks| <= |w.kids| && cptr == (if |ks| < |w.kids| then w.kids[|ks|].node else null)
      invariant Children(n, ks, vs[..|ks|]) && nptr == Last(ks) && Named(ks, w.kids)
      invariant (nptr != null ==> nptr in FootAll(ks)) && FootAll(ks) !! Reach(w) && h !in FootAll(ks)
      invariant fresh(FootAll(ks)) && h.live == old(h.live) + FootAll(ks)
      invariant Shows(w, v) && n !in Reach(w) && h !in Reach(w) && h.failures == old(h.failures)
      decreases |w.kids| - |ks|
    {
      var next := cptr.next;
      ghost var was := FootAll(ks);
      KidShows(w, v, |ks|);
      ok, nptr, ks := CopyKid(h, n, nptr, cptr, ks, w, v);
      if !ok {
        return;
      }
      assert FootAll(ks) == was + (FootAll(ks) - was);
      cptr := next;
    }
    ok := true;
  }

  lemma NamedNone(source: seq<View>)
    ensures Named([], source)
  {
  }

  /** One round of that loop. */
  method CopyKid(h: Heap, n: Item, nptr: Item?, cptr: Item, ghost ks: seq<Shape>, ghost w: View, ghost v: Json)
    returns (ok: bool, last: Item?, ghost ks': seq<Shape>)
    requires Shows(w, v) && h !in Reach(w) && n !in Reach(w)
    requires |ks| < |w.kids| == |KidValues(v)| && cptr == w.kids[|ks|].node
    requires Children(n, ks, KidValues(v)[..|ks|]) && nptr == Last(ks) && Named(ks, w.kids)
    requires FootAll(ks) <= h.live && h !in FootAll(ks) && FootAll(ks) !! Reach(w)
    modifies h, n`child, (if nptr == null then {} else {nptr})`next
    ensures Accounted(ok, false, old(h.failures), h.failures)
    ensures !ok ==>
      ks' == ks && h.live == old(h.live) && Children(n, ks, KidValues(v)[..|ks|]) && Named(ks, w.kids)
    ensures ok ==>
      && |ks'| == |ks| + 1 && Children(n, ks', KidValues(v)[..|ks'|]) && last == Last(ks') && last in FootAll(ks')
      && FootAll(ks) <= FootAll(ks') && fresh(FootAll(ks') - FootAll(ks)) && FootAll(ks') !! Reach(w) && h !in FootAll(ks')
      && h.live == old(h.live) + (FootAll(ks') - FootAll(ks)) && Named(ks', w.kids)
    decreases w, 0
  {
    hide Shows, Reach, Is, Holds, FootAll, Apart, LinkedTo, HoldsText, KidValues;
    ReachAllocated(w);
    ghost var i, vs := |ks|, KidValues(v);
    KidShows(w, v, i);
    var newchild;
    ghost var k;
    newchild, k := Duplicate(h, cptr, true, w.kids[i], vs[i]);
    if newchild == null {
      return false, nptr, ks;
    }
    NodeIn(k);
    last, ks' := HookKid(n, nptr, newchild, ks, k, w, vs);
    ok := true;
  }

  /** The copy of the next child becomes the last one. */
  method HookKid(n: Item, nptr: Item?, newchild: Item, ghost ks: seq<Shape>, ghost k: Shape, ghost w: View, ghost vs: seq<Json>)
    returns (last: Item, ghost ks': seq<Shape>)
    requires |ks| < |vs| == |w.kids| && Children(n, ks, vs[..|ks|]) && nptr == Last(ks) && Detached(newchild, k, vs[|ks|])
    requires FootAll(ks) !! k.foot && n !in k.foot && Named(ks, w.kids) && SameText(w.kids[|ks|].name, k.name)
    modifies n`child, newchild`prev, (if nptr == null then {} else {nptr})`next
    ensures ks' == ks + [k] && Children(n, ks', vs[..|ks'|]) && last == Last(ks') && last in FootAll(ks')
    ensures FootAll(ks') == FootAll(ks) + k.foot && Named(ks', w.kids)
  {
    hide Is, Holds, FootAll, Apart, LinkedTo, HoldsText;
    ghost var i := |ks|;
    assert vs[..i] + [vs[i]] == vs[..i + 1];
    last, ks' := Hook(n, nptr, newchild, ks, vs[..i], k, vs[i]);
  }

  /** The new child becomes the last one. */
  method Hook(n: Item, nptr: Item?, newchild: Item, ghost ks: seq<Shape>, ghost vs: seq<Json>, ghost k: Shape, ghost v: Json)
    returns (last: Item, ghost ks': seq<Shape>)
    requires Children(n, ks, vs) && nptr == Last(ks) && Detached(newchild, k, v)
    requires FootAll(ks) !! k.foot && n !in k.foot
    modifies n`child, newchild`prev, (if nptr == null then {} else {nptr})`next
    ensures ks' == ks + [k] && last == Last(ks') && last in FootAll(ks') && Children(n, ks', vs + [v]) && FootAll(ks') == FootAll(ks) + k.foot
  {
    hide FootAll, Is, Holds, Apart;
    Allocated(ks);
    Distinct(ks);
    if nptr == null {
      n.child := newchild;
    } else {
      SuffixObject(n, nptr, newchild, ks, vs, k, v);
    }
    Joined(n.child, ks, k);
    JoinedItems(ks, k, vs, v);
    last, ks' := newchild, ks + [k];
    Distinct(ks');
  }

  /**
    What a node shows is copied to a tree that represents the same value and consists of new blocks only, without any
    reference; the source is not changed. Without `recurse` the children are left out. On failure nothing is left
    allocated.
   */
  method Duplicate(h: Heap, item: Item, recurse: bool, ghost w: View, ghost v: Json)
    returns (n: Item?, ghost k: Shape)
    requires Shows(w, v) && item == w.node && h !in Reach(w)
    modifies h
    ensures Accounted(n != null, false, old(h.failures), h.failures)
    ensures n == null ==> h.live == old(h.live)
    ensures n != null ==>
      && n == k.node && Is(k) && fresh(k.foot) && h.live == old(h.live) + k.foot
      && n.next == null && n.prev == null && SameText(w.name, k.name)
      && (w.name == null <==> k.name == null)
      && (recurse || (!v.Array? && !v.Object?) ==> Holds(k, v))
      && (!recurse && v.Array? ==> Holds(k, Array([]))) && (!recurse && v.Object? ==> Holds(k, Object([])))
    ensures forall s :: n != null && w.name != null && HoldsText(w.name, s) ==> HoldsText(k.name, s)
    decreases w, 3
  {
    hide Shows, Reach, Is, Holds, FootAll, HoldsText;
    ReachAllocated(w);
    FirstShown(w, v);
    n := CopyNode(h, item, w, v);
    if n == null {
      k := Make(item, null, null, []);
    } else if recurse {
      n, k := AddKids(h, n, item, w, v);
    } else {
      LeafIs(n, n.valuestring, n.name);
      k := Make(n, n.valuestring, n.name, []);
      NoFoot();
      CopyShallow(w, v, n, k);
    }
  }

  /** The children are copied below the new node, which is deleted with what it has got so far if that fails. */
  method AddKids(h: Heap, n: Item, item: Item, ghost w: View, ghost v: Json) returns (n': Item?, ghost k: Shape)
    requires Shows(w, v) && item == w.node && h !in Reach(w) && n !in Reach(w) && n.child == null && !n.isReference
    requires n.next == null && n.prev == null
    requires Block(n.valuestring) !! Reach(w) && Block(n.name) !! Reach(w) && Block(n.name) !! Block(n.valuestring)
    requires (n.valuestring != null ==> '\0' in n.valuestring[..]) && (n.name != null ==> '\0' in n.name[..])
    requires n.kind == item.kind && n.mantissa == item.mantissa && n.exponent == item.exponent
    requires SameText(w.text, n.valuestring) && SameText(w.name, n.name)
    requires {n} + Block(n.valuestring) + Block(n.name) <= h.live
    modifies h, n, Block(n.valuestring), Block(n.name)
    ensures Accounted(n' != null, false, old(h.failures), h.failures)
    ensures n' == null ==> h.live == old(h.live) - {n} - Block(old(n.valuestring)) - Block(old(n.name))
    ensures n' != null ==>
      && n' == n == k.node && Is(k) && Holds(k, v) && SameText(w.name, k.name) && n.next == null && n.prev == null
      && {n} + Block(old(n.valuestring)) + Block(old(n.name)) <= k.foot
      && (forall o :: o in k.foot ==> fresh(o) || o in {n} + Block(old(n.valuestring)) + Block(old(n.name)))
      && h.live == old(h.live) + k.foot
    decreases w, 2
  {
    hide Shows, Reach, Is, Holds, FootAll, Apart, LinkedTo, HoldsText, KidValues, Named;
    ReachAllocated(w);
    FirstShown(w, v);
    var ok;
    ghost var ks;
    ok, ks := CopyKids(h, n, item, w, v);
    MakeIs(n, n.valuestring, n.name, ks);
    k := Make(n, n.valuestring, n.name, ks);
    n' := n;
    if ok {
      CopyHolds(w, v, n, k);
    } else {
      Single(k);
      Delete(h, n, [k]);
      n' := null;
    }
  }

  lemma CopyShallow(w: View, v: Json, n: Item, k: Shape)
    requires Shows(w, v) && Is(k) && k.node == n && !n.isReference && k.kids == []
    requires n.kind == w.node.kind && n.mantissa == w.node.mantissa && n.exponent == w.node.exponent
    requires SameText(w.text, k.text)
    ensures !v.Array? && !v.Object? ==> Holds(k, v)
    ensures (v.Array? ==> Holds(k, Array([]))) && (v.Object? ==> Holds(k, Object([])))
  {
    hide FootAll, Linked, Chain, Reach, ReachAll;
  }

  lemma CopyHolds(w: View, v: Json, n: Item, k: Shape)
    requires Shows(w, v) && Is(k) && k.node == n && !n.isReference
    requires n.kind == w.node.kind && n.mantissa == w.node.mantissa && n.exponent == w.node.exponent
    requires SameText(w.text, k.text)
    requires |k.kids| == |w.kids| == |KidValues(v)| && HoldItems(k.kids, KidValues(v)) && Named(k.kids, w.kids)
    ensures Holds(k, v)
  {
    hide FootAll, Linked, Chain, Reach, ReachAll;
    if v.Object? {
      forall i | 0 <= i < |w.kids|
        ensures HoldsMember(k.kids[i], v.members[i])
      {
        assert ShowsMember(w.kids[i], v.members[i]);
      }
    }
  }
}
