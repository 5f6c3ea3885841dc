/** The nodes of cJSON, the trees they form, and who owns what in them. */
module Items {
  import opened Json
  import opened Memory

  datatype Kind = KFalse | KTrue | KNull | KNumber | KString | KArray | KObject

  /**
    `struct cJSON`; `valuedouble` is `mantissa` times ten to the power `exponent`, and `isReference` the flag in
    `type` for a node that shows the contents of another one.
   */
  class Item {
    var next: Item?
    var prev: Item?
    var child: Item?
    var kind: Kind
    var isReference: bool
    var valuestring: array?<char>
    var mantissa: int
    var exponent: int
    var name: array?<char>

    /** A node as `memset` leaves it. */
    constructor ()
      ensures next == null && prev == null && child == null && valuestring == null && name == null
      ensures kind == KFalse && !isReference && mantissa == 0 && exponent == 0
    {
      next, prev, child, valuestring, name := null, null, null, null, null;
      kind, isReference, mantissa, exponent := KFalse, false, 0, 0;
    }
  }

  /**
    What a node owns: its two strings and, by way of its first child, a chain of nodes. `foot` is everything that is
    owned from the node on, the node included.
   */
  datatype Shape = Shape(node: Item, text: array?<char>, name: array?<char>, kids: seq<Shape>, foot: set<object>)

  ghost function FootAll(ks: seq<Shape>): set<object> {
    set i, o | 0 <= i < |ks| && o in ks[i].foot :: o
  }

  /** What hangs below a node: everything it owns but itself and its name. */
  ghost function Inner(sh: Shape): set<object> {
    Block(sh.text) + FootAll(sh.kids)
  }

  /** The footprint is what the node and its children own, and nothing is owned twice. */
  ghost predicate Owns(sh: Shape) {
    && sh.foot == {sh.node} + Block(sh.name) + Inner(sh)
    && sh.node !in Inner(sh) && Block(sh.name) !! Inner(sh) && Block(sh.text) !! FootAll(sh.kids)
    && Apart(sh.kids)
  }

  ghost predicate Apart(ks: seq<Shape>) {
    && (forall i :: 0 <= i < |ks| ==> ks[i].node in ks[i].foot && ks[i].foot <= FootAll(ks))
    && (forall i, j :: 0 <= i < j < |ks| ==> ks[i].foot !! ks[j].foot)
  }

  /** The nodes form a chain that starts at `first` and goes on at `end`. */
  ghost predicate LinkedTo(first: Item?, ks: seq<Shape>, end: Item?)
    reads FootAll(ks)
  {
    && Apart(ks)
    && first == (if ks == [] then end else ks[0].node)
    && (forall i {:trigger ks[i].node.next} :: 0 <= i < |ks| ==>
         ks[i].node.next == (if i + 1 < |ks| then ks[i + 1].node else end))
    && (forall i {:trigger ks[i].node.prev} :: 0 <= i < |ks| ==>
         ks[i].node.prev == (if i > 0 then ks[i - 1].node else null))
  }

  ghost predicate Linked(first: Item?, ks: seq<Shape>)
    reads FootAll(ks)
  {
    LinkedTo(first, ks, null)
  }

  function Last(ks: seq<Shape>): Item? {
    if ks == [] then null else ks[|ks| - 1].node
  }

  /**
    The heap holds a tree of this shape; the links of its root are not looked at. A reference owns nothing but itself
    and its name.
   */
  ghost predicate Is(sh: Shape)
    reads sh.foot
    decreases sh
  {
    && Owns(sh)
    && sh.node.name == sh.name && (sh.name != null ==> '\0' in sh.name[..])
    && (sh.text != null ==> '\0' in sh.text[..])
    && (if sh.node.isReference then sh.text == null && sh.kids == []
        else sh.node.valuestring == sh.text && Linked(sh.node.child, sh.kids))
    && (forall i :: 0 <= i < |sh.kids| ==> Is(sh.kids[i]))
  }

  ghost predicate IsAll(ks: seq<Shape>)
    reads FootAll(ks)
  {
    Apart(ks) && forall i :: 0 <= i < |ks| ==> Is(ks[i])
  }

  /** The tree represents the value. */
  ghost predicate Holds(sh: Shape, v: Json)
    reads sh.foot
    decreases sh, 0
  {
    Owns(sh) && !sh.node.isReference &&
    match v
    case Null => sh.node.kind == KNull && sh.kids == []
    case False => sh.node.kind == KFalse && sh.kids == []
    case True => sh.node.kind == KTrue && sh.kids == []
    case Number(m, e) => sh.node.kind == KNumber && sh.node.mantissa == m && sh.node.exponent == e && sh.kids == []
    case String(s) => sh.node.kind == KString && sh.kids == [] && sh.text != null && HoldsText(sh.text, s)
    case Array(items) =>
      && sh.node.kind == KArray && |sh.kids| == |items|
      && forall i :: 0 <= i < |items| ==> Holds(sh.kids[i], items[i])
    case Object(members) =>
      && sh.node.kind == KObject && |sh.kids| == |members|
      && forall i :: 0 <= i < |members| ==> HoldsMember(sh.kids[i], members[i])
  }

  ghost predicate HoldsMember(sh: Shape, m: Member)
    reads sh.foot
    decreases sh, 1
  {
    Owns(sh) && sh.name != null && HoldsText(sh.name, m.key) && Holds(sh, m.value)
  }

  lemma FootSplit(ks: seq<Shape>, i: nat)
    requires i <= |ks|
    ensures FootAll(ks) == FootAll(ks[..i]) + FootAll(ks[i..])
  {
    forall o | o in FootAll(ks)
      ensures o in FootAll(ks[..i]) + FootAll(ks[i..])
    {
      var j :| 0 <= j < |ks| && o in ks[j].foot;
      if j >= i {
        assert ks[j] == ks[i..][j - i];
      } else {
        assert ks[j] == ks[..i][j];
      }
    }
  }

  lemma FootOne(k: Shape)
    ensures FootAll([k]) == k.foot
  {
    assert [k][0] == k;
  }

  lemma FootAppend(ks: seq<Shape>, k: Shape)
    ensures FootAll(ks + [k]) == FootAll(ks) + k.foot
  {
    FootSplit(ks + [k], |ks|);
    assert (ks + [k])[..|ks|] == ks && (ks + [k])[|ks|..] == [k];
    FootOne(k);
  }

  /** Only the members of objects have names, as in every tree that the parser builds. */
  ghost predicate NamesFit(sh: Shape, v: Json) {
    match v
    case Array(items) =>
      |sh.kids| == |items| && forall i :: 0 <= i < |items| ==> sh.kids[i].name == null && NamesFit(sh.kids[i], items[i])
    case Object(members) =>
      |sh.kids| == |members| && forall i :: 0 <= i < |members| ==> NamesFit(sh.kids[i], members[i].value)
    case _ => true
  }

  lemma KidNamesFit(sh: Shape, v: Json, i: nat)
    requires NamesFit(sh, v) && i < |KidValues(v)|
    ensures i < |sh.kids| && NamesFit(sh.kids[i], KidValues(v)[i])
  {
  }

  ghost predicate HoldItems(ks: seq<Shape>, items: seq<Json>)
    reads FootAll(ks)
  {
    Apart(ks) && |ks| == |items| && forall i :: 0 <= i < |items| ==> Holds(ks[i], items[i])
  }

  ghost predicate HoldMembers(ks: seq<Shape>, members: seq<Member>)
    reads FootAll(ks)
  {
    Apart(ks) && |ks| == |members| && forall i :: 0 <= i < |members| ==> HoldsMember(ks[i], members[i])
  }

  // ---------- Links ----------

  /** What the heap says below a node is not about the node. */
  lemma Inside(k: Shape)
    requires Owns(k)
    ensures FootAll(k.kids) <= k.foot - {k.node} && Block(k.text) <= k.foot - {k.node} && Block(k.name) <= k.foot - {k.node}
    ensures forall i :: 0 <= i < |k.kids| ==> k.kids[i].foot <= k.foot - {k.node}
  {
    hide FootAll;
  }

  /** `item->next=next`: the node keeps what it owns and represents. */
  method SetNext(item: Item, next: Item?, ghost k: Shape)
    requires Is(k) && item == k.node
    modifies item`next
    ensures item.next == next && Is(k)
    ensures forall v: Json :: old(Holds(k, v)) ==> Holds(k, v)
    ensures forall m: Member :: old(HoldsMember(k, m)) ==> HoldsMember(k, m)
  {
    hide FootAll, Linked, Apart;
    Inside(k);
    item.next := next;
    assert !k.node.isReference ==> Linked(k.node.child, k.kids);
  }

  /** `item->prev=prev` */
  method SetPrev(item: Item, prev: Item?, ghost k: Shape)
    requires Is(k) && item == k.node
    modifies item`prev
    ensures item.prev == prev && Is(k)
    ensures forall v: Json :: old(Holds(k, v)) ==> Holds(k, v)
  {
    hide FootAll, Linked, Apart;
    Inside(k);
    item.prev := prev;
    assert !k.node.isReference ==> Linked(k.node.child, k.kids);
  }

  /** `last->next=n`, behind the last node of a chain. */
  method SetLastNext(last: Item, n: Item, ghost ks: seq<Shape>, ghost items: seq<Json>, ghost members: seq<Member>)
    requires IsAll(ks) && ks != [] && last == Last(ks)
    modifies last`next
    ensures last.next == n && IsAll(ks)
    ensures old(HoldItems(ks, items)) ==> HoldItems(ks, items)
    ensures old(HoldMembers(ks, members)) ==> HoldMembers(ks, members)
  {
    hide Is, Holds, HoldsMember, FootAll;
    ghost var k := ks[|ks| - 1];
    SetNext(last, n, k);
  }

  /** `item->child=n`, or `last->next=n;n->prev=last` */
  method LinkLast(item: Item, last: Item?, n: Item, ghost ks: seq<Shape>, ghost items: seq<Json>,
                  ghost members: seq<Member>)
    requires Linked(item.child, ks) && IsAll(ks) && last == Last(ks)
    requires item !in FootAll(ks) && n !in FootAll(ks) && n != item && n.next == null && n.prev == null
    modifies item`child, n`prev, (if last == null then {} else {last})`next
    ensures LinkedTo(item.child, ks, n) && n.prev == last
    ensures IsAll(ks)
    ensures old(HoldItems(ks, items)) ==> HoldItems(ks, items)
    ensures old(HoldMembers(ks, members)) ==> HoldMembers(ks, members)
  {
    hide Is, Holds, HoldsMember, FootAll, IsAll, HoldItems, HoldMembers;
    if last == null {
      item.child := n;
    } else {
      SetLastNext(last, n, ks, items, members);
      n.prev := last;
    }
  }

  lemma NoFoot()
    ensures FootAll([]) == {}
  {
  }

  lemma Joined(first: Item?, ks: seq<Shape>, k: Shape)
    requires LinkedTo(first, ks, k.node) && IsAll(ks) && Is(k)
    requires k.node.prev == Last(ks) && k.node.next == null && FootAll(ks) !! k.foot
    ensures Linked(first, ks + [k]) && IsAll(ks + [k]) && FootAll(ks + [k]) == FootAll(ks) + k.foot
    ensures Last(ks + [k]) == k.node
  {
    hide Is, FootAll, Apart;
    NodeIn(k);
    FootAppend(ks, k);
    ApartAppend(ks, k);
    var all := ks + [k];
    assert forall i :: 0 <= i < |ks| ==> all[i] == ks[i];
  }

  lemma NodeIn(k: Shape)
    requires Is(k)
    ensures k.node in k.foot && Owns(k)
  {
    hide FootAll, Linked;
  }

  lemma ApartAppend(ks: seq<Shape>, k: Shape)
    requires Apart(ks) && k.node in k.foot && FootAll(ks) !! k.foot
    ensures Apart(ks + [k])
  {
    hide FootAll;
    FootAppend(ks, k);
  }

  lemma JoinedItems(ks: seq<Shape>, k: Shape, items: seq<Json>, v: Json)
    requires HoldItems(ks, items) && Holds(k, v) && Apart(ks + [k])
    ensures HoldItems(ks + [k], items + [v])
  {
    hide Holds, Apart, FootAll;
  }

  lemma JoinedMembers(ks: seq<Shape>, k: Shape, members: seq<Member>, m: Member)
    requires HoldMembers(ks, members) && HoldsMember(k, m) && Apart(ks + [k])
    ensures HoldMembers(ks + [k], members + [m])
  {
    hide HoldsMember, Apart, FootAll;
  }

  lemma LastIn(ks: seq<Shape>)
    requires Apart(ks)
    ensures Last(ks) != null ==> Last(ks) in FootAll(ks)
  {
  }

  /** A new node from the allocator, which may fail. */
  method NewItem(h: Heap) returns (item: Item?)
    modifies h
    ensures item == null ==> h.live == old(h.live) && h.failures == old(h.failures) + 1
    ensures item != null ==> fresh(item) && h.live == old(h.live) + {item} && h.failures == old(h.failures)
    ensures item != null ==>
      && item.next == null && item.prev == null && item.child == null && item.valuestring == null
      && item.name == null && item.kind == KFalse && !item.isReference
  {
    if * {
      h.failures := h.failures + 1;
      return null;
    }
    item := new Item();
    h.live := h.live + {item};
  }

  // ---------- Deleting ----------

  /** The `next` pointers lead from `first` through all the nodes; `Delete` looks at no others. */
  ghost predicate Forward(first: Item?, ks: seq<Shape>)
    reads FootAll(ks)
  {
    && Apart(ks)
    && first == (if ks == [] then null else ks[0].node)
    && (forall i {:trigger ks[i].node.next} :: 0 <= i < |ks| ==> ks[i].node.next == (if i + 1 < |ks| then ks[i + 1].node else null))
  }

  lemma Parts(k: Shape)
    requires Is(k)
    ensures k.foot == {k.node} + Block(k.name) + Block(k.text) + FootAll(k.kids)
    ensures k.node !in FootAll(k.kids) && Block(k.name) !! Block(k.text) && Block(k.name) !! FootAll(k.kids)
    ensures Block(k.text) !! FootAll(k.kids)
    ensures k.node.name == k.name && IsAll(k.kids)
    ensures if k.node.isReference then k.text == null && k.kids == []
      else k.node.valuestring == k.text && Forward(k.node.child, k.kids)
  {
    hide FootAll;
  }

  /** `cJSON_Delete` frees every block of a chain of trees exactly once and touches nothing else. */
  method Delete(h: Heap, first: Item?, ghost ks: seq<Shape>)
    requires Forward(first, ks) && IsAll(ks)
    requires FootAll(ks) <= h.live && h !in FootAll(ks)
    modifies h, FootAll(ks)
    ensures h.live == old(h.live) - FootAll(ks) && h.failures == old(h.failures)
    decreases ks, 1
  {
    hide *;
    var c := first;
    ghost var rest := ks;
    while c != null
      invariant Forward(c, rest) && IsAll(rest) && FootAll(rest) <= FootAll(ks)
      invariant h.live == old(h.live) - (FootAll(ks) - FootAll(rest)) && h.failures == old(h.failures)
      invariant rest == [] || rest[0] in ks
      invariant forall k :: k in rest ==> k in ks
      decreases |rest|
    {
      HeadAndTail(c, rest);
      var next := c.next;
      ghost var k := rest[0];
      rest := rest[1..];
      DeleteOne(h, c, k);
      c := next;
    }
    NothingLeft(rest);
  }

  lemma NothingLeft(ks: seq<Shape>)
    requires Forward(null, ks)
    ensures FootAll(ks) == {}
  {
  }

  lemma HeadAndTail(c: Item, ks: seq<Shape>)
    requires Forward(c, ks) && IsAll(ks)
    ensures ks != [] && c == ks[0].node && Is(ks[0]) && c in ks[0].foot
    ensures Forward(c.next, ks[1..]) && IsAll(ks[1..])
    ensures FootAll(ks) == ks[0].foot + FootAll(ks[1..]) && ks[0].foot !! FootAll(ks[1..])
  {
    assert Apart(ks) && ks != [] && Is(ks[0]);
    hide *;
    FirstFoot(ks);
    TailForward(c, ks);
    TailIs(ks);
  }

  lemma FirstFoot(ks: seq<Shape>)
    requires Apart(ks) && ks != []
    ensures FootAll(ks) == ks[0].foot + FootAll(ks[1..]) && ks[0].foot !! FootAll(ks[1..])
  {
    Divide(ks, 0);
    FootSplit(ks, 1);
    assert ks[..1] == [ks[0]];
    FootOne(ks[0]);
  }

  lemma TailForward(c: Item, ks: seq<Shape>)
    requires Forward(c, ks)
    ensures ks != [] && Forward(c.next, ks[1..]) && c == ks[0].node && c in ks[0].foot
  {
    Divide(ks, 0);
    hide FootAll, Apart;
    forall i | 0 <= i < |ks| - 1
      ensures ks[1..][i].node.next == (if i + 1 < |ks| - 1 then ks[1..][i + 1].node else null)
    {
      assert ks[1..][i] == ks[i + 1];
    }
  }

  lemma TailIs(ks: seq<Shape>)
    requires IsAll(ks) && ks != []
    ensures IsAll(ks[1..])
  {
    Divide(ks, 0);
    forall i | 0 <= i < |ks| - 1
      ensures Is(ks[1..][i])
    {
      assert ks[1..][i] == ks[i + 1];
    }
  }

  lemma Divide(ks: seq<Shape>, i: nat)
    requires i < |ks| && Apart(ks)
    ensures FootAll(ks[..i + 1]) == FootAll(ks[..i]) + ks[i].foot
    ensures ks[i].foot !! FootAll(ks[..i]) && ks[i].foot !! FootAll(ks[i + 1..]) && ks[i].foot <= FootAll(ks)
    ensures FootAll(ks[i + 1..]) <= FootAll(ks) && Apart(ks[i + 1..])
  {
    FootAppend(ks[..i], ks[i]);
    assert ks[..i] + [ks[i]] == ks[..i + 1];
    FootSplit(ks, i + 1);
    InSuffix(ks, i + 1);
  }

  lemma FootIn(ks: seq<Shape>, i: nat)
    requires i < |ks|
    ensures ks[i].foot <= FootAll(ks)
  {
  }

  lemma InSuffix(ks: seq<Shape>, i: nat)
    requires i <= |ks| && Apart(ks)
    ensures Apart(ks[i..])
  {
    hide FootAll;
    forall j | 0 <= j < |ks| - i
      ensures ks[i..][j] == ks[i + j] && ks[i..][j].foot <= FootAll(ks[i..])
    {
      FootIn(ks[i..], j);
    }
  }

  method DeleteOne(h: Heap, c: Item, ghost k: Shape)
    requires Is(k) && c == k.node
    requires k.foot <= h.live && h !in k.foot
    modifies h, k.foot
    ensures h.live == old(h.live) - k.foot && h.failures == old(h.failures)
    decreases k, 0
  {
    hide *;
    PartsLeft(h.live, k);
    if !c.isReference && c.child != null {
      Delete(h, c.child, k.kids);
    } else if c.isReference {
      NoFoot();
    } else {
      NothingLeft(k.kids);
    }
    FreeNode(h, c);
  }

  method FreeNode(h: Heap, c: Item)
    requires Owned(c) <= h.live && Block(c.name) <= h.live - Owned(c) && c in h.live
    requires h !in Owned(c) && h !in Block(c.name)
    modifies h, c, Owned(c), Block(c.name)
    ensures h.live == old(h.live) - old(Owned(c)) - Block(old(c.name)) - {c} && h.failures == old(h.failures)
  {
    if !c.isReference && c.valuestring != null {
      h.Free(c.valuestring);
    }
    if c.name != null {
      h.Free(c.name);
    }
    h.Free(c);
  }

  /** The value string that is freed with a node. */
  ghost function Owned(c: Item): set<object>
    reads c
  {
    if c.isReference then {} else Block(c.valuestring)
  }

  /** Each part of a tree is still there when the parts before it have been freed. */
  lemma PartsLeft(live: set<object>, k: Shape)
    requires Is(k) && k.foot <= live
    ensures var live1 := live - FootAll(k.kids);
      var live2 := live1 - Block(k.text);
      var live3 := live2 - Block(k.name);
      Block(k.text) <= live1 && Block(k.name) <= live2 && k.node in live3 && live3 - {k.node} == live - k.foot
    ensures FootAll(k.kids) <= k.foot && Block(k.text) <= k.foot && Block(k.name) <= k.foot && k.node in k.foot
    ensures k.node !in FootAll(k.kids) && k.node.name == k.name && Owned(k.node) == Block(k.text) && IsAll(k.kids)
    ensures if k.node.isReference then k.kids == [] else Forward(k.node.child, k.kids)
  {
    Parts(k);
    OwnedText(k);
    hide *;
  }

  lemma OwnedText(k: Shape)
    requires if k.node.isReference then k.text == null else k.node.valuestring == k.text
    ensures Owned(k.node) == Block(k.text)
  {
  }

  /** A single tree is a chain of one. */
  lemma Single(sh: Shape)
    requires Is(sh) && sh.node.next == null
    ensures Forward(sh.node, [sh]) && IsAll([sh]) && FootAll([sh]) == sh.foot
  {
    hide Is;
    NodeIn(sh);
    FootOne(sh);
  }

  // ---------- Putting shapes together ----------

  ghost function Make(item: Item, text: array?<char>, name: array?<char>, ks: seq<Shape>): Shape {
    Shape(item, text, name, ks, {item} + Block(name) + (Block(text) + FootAll(ks)))
  }

  lemma MakeIs(item: Item, text: array?<char>, name: array?<char>, ks: seq<Shape>)
    requires item.valuestring == text && item.name == name && !item.isReference
    requires (text != null ==> '\0' in text[..]) && (name != null ==> '\0' in name[..])
    requires Linked(item.child, ks) && IsAll(ks)
    requires item !in FootAll(ks) && Block(text) !! FootAll(ks) && Block(name) !! FootAll(ks) && Block(name) !! Block(text)
    ensures var sh := Make(item, text, name, ks); Is(sh) && Inner(sh) == Block(text) + FootAll(ks)
  {
    hide FootAll;
  }

  lemma LeafIs(item: Item, text: array?<char>, name: array?<char>)
    requires item.valuestring == text && item.name == name && item.child == null && !item.isReference
    requires (text != null ==> '\0' in text[..]) && (name != null ==> '\0' in name[..])
    requires Block(name) !! Block(text)
    ensures var sh := Make(item, text, name, []); Is(sh) && Inner(sh) == Block(text)
  {
    hide Is;
    NoFoot();
    MakeIs(item, text, name, []);
  }

  /** The kind and value fields of a node without children fit the value. */
  ghost predicate LeafFits(item: Item, text: array?<char>, v: Json)
    reads item, Block(text)
  {
    match v
    case Null => item.kind == KNull
    case False => item.kind == KFalse
    case True => item.kind == KTrue
    case Number(m, e) => item.kind == KNumber && item.mantissa == m && item.exponent == e
    case String(s) => item.kind == KString && text != null && HoldsText(text, s)
    case _ => false
  }

  lemma LeafHolds(item: Item, text: array?<char>, name: array?<char>, v: Json)
    requires Block(name) !! Block(text) && item.valuestring == text && item.name == name && !item.isReference
    requires LeafFits(item, text, v)
    ensures Holds(Make(item, text, name, []), v)
  {
    NoFoot();
  }

  lemma NoKids(first: Item?)
    requires first == null
    ensures FootAll([]) == {} && Linked(first, []) && IsAll([]) && HoldItems([], []) && HoldMembers([], [])
    ensures Last([]) == null
  {
  }

  // ---------- Reading a tree ----------

  /** The values of the children. */
  function KidValues(v: Json): seq<Json> {
    match v
    case Array(items) => items
    case Object(members) => seq(|members|, i requires 0 <= i < |members| => members[i].value)
    case _ => []
  }

  lemma KidHolds(sh: Shape, v: Json, i: nat)
    requires Is(sh) && Holds(sh, v) && i < |sh.kids|
    ensures |KidValues(v)| == |sh.kids| && Is(sh.kids[i]) && Holds(sh.kids[i], KidValues(v)[i])
    ensures sh.kids[i].foot <= sh.foot && sh.kids[i].node in sh.kids[i].foot && sh.node !in sh.kids[i].foot
  {
    hide FootAll;
    Inside(sh);
  }

  lemma KidLink(sh: Shape, i: nat)
    requires Is(sh) && i < |sh.kids|
    ensures sh.kids[i].node.next == if i + 1 < |sh.kids| then sh.kids[i + 1].node else null
  {
    hide FootAll, Apart;
  }

  lemma FirstKid(sh: Shape)
    requires Is(sh) && !sh.node.isReference
    ensures sh.node.child == if sh.kids == [] then null else sh.kids[0].node
  {
    hide FootAll, Apart;
  }

  lemma KidCount(sh: Shape, v: Json)
    requires Holds(sh, v)
    ensures |KidValues(v)| == |sh.kids| && !sh.node.isReference
  {
  }

  lemma TextsEnd(sh: Shape)
    requires Is(sh)
    ensures (sh.node.isReference || sh.node.valuestring == sh.text) && sh.node.name == sh.name
    ensures Block(sh.text) <= sh.foot && Block(sh.name) <= sh.foot
    ensures (sh.text != null ==> '\0' in sh.text[..]) && (sh.name != null ==> '\0' in sh.name[..])
  {
    hide FootAll, Linked;
  }

  lemma KidNamed(sh: Shape, v: Json, i: nat)
    requires v.Object? && Holds(sh, v) && i < |sh.kids|
    ensures |v.members| == |sh.kids| && HoldsMember(sh.kids[i], v.members[i])
  {
    hide FootAll;
  }
}
