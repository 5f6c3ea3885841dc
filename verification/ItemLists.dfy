/** The operations of cJSON on the children of a node, as operations on the sequence of these children. */
module ItemLists {
  import opened Items
  import opened Json
  import opened Memory
  import opened Sequences

  /** The children of a node are the trees `ks`, which represent the values `vs`. */
  ghost predicate Children(parent: Item, ks: seq<Shape>, vs: seq<Json>)
    reads parent, FootAll(ks)
  {
    parent !in FootAll(ks) && Linked(parent.child, ks) && IsAll(ks) && HoldItems(ks, vs)
  }

  /** A tree that belongs to no chain and represents `v`. */
  ghost predicate Detached(item: Item, k: Shape, v: Json)
    reads item, k.foot
  {
    item == k.node && Is(k) && Holds(k, v) && item.next == null && item.prev == null
  }

  function Index(which: int): nat {
    if which < 0 then 0 else which
  }

  lemma Distinct(ks: seq<Shape>)
    requires Apart(ks)
    ensures forall i, j :: 0 <= i < j < |ks| ==> ks[i].node != ks[j].node
    ensures forall i :: 0 <= i < |ks| ==> ks[i].node in FootAll(ks)
  {
    hide FootAll;
  }

  /** `while (c && which>0) c=c->next,which--;` */
  method Nth(parent: Item, which: int, ghost ks: seq<Shape>) returns (c: Item?)
    requires Linked(parent.child, ks)
    ensures c == if Index(which) < |ks| then ks[Index(which)].node else null
    ensures ks == [] || which >= |ks| ==> c == null
    ensures ks != [] && which <= 0 ==> c == ks[0].node
    ensures 0 <= which < |ks| ==> c == ks[which].node
  {
    hide FootAll, Apart;
    c := parent.child;
    var n := which;
    ghost var i := 0;
    while c != null && n > 0
      invariant i <= Index(which) && n == which - i && i <= |ks|
      invariant c == if i < |ks| then ks[i].node else null
      invariant n < 0 ==> i == 0
      decreases |ks| - i
    {
      c := c.next;
      n := n - 1;
      i := i + 1;
    }
  }

  /** `suffix_object` behind the last child. */
  method SuffixObject(parent: Item, prev: Item, item: Item, ghost ks: seq<Shape>, ghost vs: seq<Json>, ghost k: Shape,
                      ghost v: Json)
    requires Children(parent, ks, vs) && Detached(item, k, v) && FootAll(ks) !! k.foot && parent !in k.foot
    requires ks != [] && prev == Last(ks)
    modifies item`prev, prev`next
    ensures LinkedTo(parent.child, ks, item) && IsAll(ks) && HoldItems(ks, vs)
    ensures Is(k) && Holds(k, v) && item.prev == prev && item.next == null
  {
    hide FootAll, Is, Holds;
    Distinct(ks);
    NodeIn(k);
    ghost var z := |ks| - 1;
    SetNext(prev, item, ks[z]);
    SetPrev(item, prev, k);
  }

  /** `cJSON_AddItemToArray` appends. */
  method AddItemToArray(parent: Item, item: Item, ghost ks: seq<Shape>, ghost vs: seq<Json>, ghost k: Shape,
                        ghost v: Json)
    requires Children(parent, ks, vs) && Detached(item, k, v) && FootAll(ks) !! k.foot && parent !in k.foot
    modifies parent`child, item`prev, (if Last(ks) == null then {} else {Last(ks)})`next
    ensures Children(parent, ks + [k], vs + [v])
  {
    hide FootAll, Is, Holds, Apart;
    Distinct(ks);
    var c := parent.child;
    if c == null {
      parent.child := item;
    } else {
      ghost var i := 0;
      while c.next != null
        invariant i < |ks| && c == ks[i].node
        decreases |ks| - i
      {
        c := c.next;
        i := i + 1;
      }
      SuffixObject(parent, c, item, ks, vs, k, v);
    }
    Joined(parent.child, ks, k);
    JoinedItems(ks, k, vs, v);
  }

  ghost function Nodes(ks: seq<Shape>): set<Item> {
    set i | 0 <= i < |ks| :: ks[i].node
  }

  // ---------- Inserting ----------

  lemma ApartInsert(ks: seq<Shape>, i: nat, k: Shape)
    requires i <= |ks| && Apart(ks) && k.node in k.foot && FootAll(ks) !! k.foot
    ensures Apart(Insert(ks, i, k)) && FootAll(Insert(ks, i, k)) == FootAll(ks) + k.foot
  {
    hide FootAll;
    var s := Insert(ks, i, k);
    FootSplit(ks, i);
    FootSplit(s, i);
    FootSplit(s[i..], 1);
    FootOne(k);
    assert s[..i] == ks[..i] && s[i..][..1] == [k] && s[i..][1..] == ks[i..];
    forall j | 0 <= j < |s|
      ensures s[j].node in s[j].foot && s[j].foot <= FootAll(s)
    {
      FootIn(s, j);
    }
  }

  /** The links after an insertion before position `i`. */
  lemma LinkedInsert(first: Item?, ks: seq<Shape>, i: nat, k: Shape)
    requires i < |ks| && Apart(Insert(ks, i, k))
    requires first == if i == 0 then k.node else ks[0].node
    requires forall j {:trigger ks[j].node.next} :: 0 <= j < |ks| ==>
      ks[j].node.next == if j + 1 == i then k.node else if j + 1 < |ks| then ks[j + 1].node else null
    requires forall j {:trigger ks[j].node.prev} :: 0 <= j < |ks| ==>
      ks[j].node.prev == if j == i then k.node else if j > 0 then ks[j - 1].node else null
    requires k.node.next == ks[i].node && k.node.prev == if i > 0 then ks[i - 1].node else null
    ensures Linked(first, Insert(ks, i, k))
  {
    hide FootAll, Apart;
    var s := Insert(ks, i, k);
    forall j | 0 <= j < |s|
      ensures s[j].node.next == if j + 1 < |s| then s[j + 1].node else null
      ensures s[j].node.prev == if j > 0 then s[j - 1].node else null
    {
      if j < i {
        assert s[j] == ks[j];
      } else if j > i {
        assert s[j] == ks[j - 1];
      }
    }
  }

  /** `cJSON_InsertItemInArray` inserts before the child it counts to, or appends if there is none. */
  method InsertItemInArray(parent: Item, which: int, item: Item, ghost ks: seq<Shape>, ghost vs: seq<Json>,
                           ghost k: Shape, ghost v: Json)
    requires Children(parent, ks, vs) && Detached(item, k, v) && FootAll(ks) !! k.foot && parent !in k.foot
    modifies parent`child, item`next, item`prev, Nodes(ks)`next, Nodes(ks)`prev
    ensures var i := if Index(which) < |ks| then Index(which) else |ks|;
      Children(parent, Insert(ks, i, k), Insert(vs, i, v))
  {
    hide FootAll, Is, Holds, Apart;
    Distinct(ks);
    var c := Nth(parent, which, ks);
    if c == null {
      AddItemToArray(parent, item, ks, vs, k, v);
      assert Insert(ks, |ks|, k) == ks + [k] && Insert(vs, |ks|, v) == vs + [v];
    } else {
      InsertBefore(parent, c, item, Index(which), ks, vs, k, v);
    }
  }

  /** `next` of the child at `j` is set; all children keep what they own and represent. */
  method SetNextIn(c: Item, next: Item?, ghost j: nat, ghost ks: seq<Shape>, ghost vs: seq<Json>)
    requires IsAll(ks) && HoldItems(ks, vs) && j < |ks| && c == ks[j].node
    modifies c`next
    ensures c.next == next && IsAll(ks) && HoldItems(ks, vs)
  {
    hide FootAll, Is, Holds;
    SetNext(c, next, ks[j]);
  }

  method SetPrevIn(c: Item, prev: Item?, ghost j: nat, ghost ks: seq<Shape>, ghost vs: seq<Json>)
    requires IsAll(ks) && HoldItems(ks, vs) && j < |ks| && c == ks[j].node
    modifies c`prev
    ensures c.prev == prev && IsAll(ks) && HoldItems(ks, vs)
  {
    hide FootAll, Is, Holds;
    SetPrev(c, prev, ks[j]);
  }

  method InsertBefore(parent: Item, c: Item, item: Item, ghost i: nat, ghost ks: seq<Shape>, ghost vs: seq<Json>,
                      ghost k: Shape, ghost v: Json)
    requires Children(parent, ks, vs) && Detached(item, k, v) && FootAll(ks) !! k.foot && parent !in k.foot
    requires i < |ks| && c == ks[i].node
    modifies parent`child, item`next, item`prev, Nodes(ks)`next, Nodes(ks)`prev
    ensures Children(parent, Insert(ks, i, k), Insert(vs, i, v))
  {
    hide FootAll, Is, Holds, Apart, IsAll, HoldItems, LinkedTo, Insert;
    Allocated(ks);
    Facts(ks, vs);
    Links(parent.child, ks);
    NodeIn(k);
    ApartInsert(ks, i, k);
    SetLinks(item, c, c.prev, k, v);
    SetPrevIn(c, item, i, ks, vs);
    if c == parent.child {
      parent.child := item;
    } else {
      SetNextIn(item.prev, item, i - 1, ks, vs);
    }
    LinkedInsert(parent.child, ks, i, k);
    InsertedTree(ks, vs, i, k, v);
  }

  lemma Allocated(ks: seq<Shape>)
    ensures forall o :: o in FootAll(ks) ==> allocated(o)
  {
  }

  /** The links of a chain. */
  lemma Links(first: Item?, ks: seq<Shape>)
    requires Linked(first, ks)
    ensures first == if ks == [] then null else ks[0].node
    ensures forall i {:trigger ks[i].node.next} :: 0 <= i < |ks| ==>
      ks[i].node.next == (if i + 1 < |ks| then ks[i + 1].node else null)
    ensures forall i {:trigger ks[i].node.prev} :: 0 <= i < |ks| ==>
      ks[i].node.prev == (if i > 0 then ks[i - 1].node else null)
  {
    hide FootAll, Apart;
  }

  /** `item->next=next;item->prev=prev` */
  method SetLinks(item: Item, next: Item?, prev: Item?, ghost k: Shape, ghost v: Json)
    requires Detached(item, k, v)
    modifies item`next, item`prev
    ensures item.next == next && item.prev == prev && Is(k) && Holds(k, v)
  {
    hide Is, Holds;
    SetNext(item, next, k);
    SetPrev(item, prev, k);
  }

  lemma Facts(ks: seq<Shape>, vs: seq<Json>)
    requires IsAll(ks) && HoldItems(ks, vs)
    ensures Apart(ks) && |vs| == |ks|
    ensures forall i, j :: 0 <= i < j < |ks| ==> ks[i].node != ks[j].node
    ensures forall i :: 0 <= i < |ks| ==> ks[i].node in FootAll(ks)
  {
    Distinct(ks);
  }

  lemma InsertedTree(ks: seq<Shape>, vs: seq<Json>, i: nat, k: Shape, v: Json)
    requires IsAll(ks) && HoldItems(ks, vs) && Is(k) && Holds(k, v) && i <= |ks| && Apart(Insert(ks, i, k))
    ensures IsAll(Insert(ks, i, k)) && HoldItems(Insert(ks, i, k), Insert(vs, i, v))
  {
    hide FootAll, Is, Holds, Apart;
    var s, t := Insert(ks, i, k), Insert(vs, i, v);
    forall j | 0 <= j < |s|
      ensures Is(s[j]) && Holds(s[j], t[j])
    {
      if j < i {
        assert s[j] == ks[j] && t[j] == vs[j];
      } else if j > i {
        assert s[j] == ks[j - 1] && t[j] == vs[j - 1];
      }
    }
  }

  // ---------- Detaching ----------

  lemma ApartRemove(ks: seq<Shape>, i: nat)
    requires i < |ks| && Apart(ks)
    ensures Apart(Without(ks, i)) && FootAll(Without(ks, i)) !! ks[i].foot
    ensures FootAll(ks) == FootAll(Without(ks, i)) + ks[i].foot
  {
    hide FootAll;
    var s := Without(ks, i);
    Divide(ks, i);
    FootSplit(ks, i + 1);
    FootSplit(s, i);
    assert s[..i] == ks[..i] && s[i..] == ks[i + 1..];
    forall j | 0 <= j < |s|
      ensures s[j].node in s[j].foot && s[j].foot <= FootAll(s)
    {
      FootIn(s, j);
    }
  }

  /** The links after the child at `i` has been bypassed. */
  lemma LinkedRemove(first: Item?, ks: seq<Shape>, i: nat)
    requires i < |ks| && Apart(Without(ks, i))
    requires first == if i > 0 then ks[0].node else if |ks| > 1 then ks[1].node else null
    requires forall j {:trigger ks[j].node.next} :: 0 <= j < |ks| && j != i ==>
      ks[j].node.next ==
      if j + 1 == i then (if i + 1 < |ks| then ks[i + 1].node else null) else if j + 1 < |ks| then ks[j + 1].node else null
    requires forall j {:trigger ks[j].node.prev} :: 0 <= j < |ks| && j != i ==>
      ks[j].node.prev ==
      if j == i + 1 then (if i > 0 then ks[i - 1].node else null) else if j > 0 then ks[j - 1].node else null
    ensures Linked(first, Without(ks, i))
  {
    hide FootAll, Apart;
    var s := Without(ks, i);
    forall j | 0 <= j < |s|
      ensures s[j].node.next == if j + 1 < |s| then s[j + 1].node else null
      ensures s[j].node.prev == if j > 0 then s[j - 1].node else null
    {
      if j < i {
        assert s[j] == ks[j];
      } else {
        assert s[j] == ks[j + 1];
      }
    }
  }

  lemma RemovedTree(ks: seq<Shape>, vs: seq<Json>, i: nat)
    requires IsAll(ks) && HoldItems(ks, vs) && i < |ks| && Apart(Without(ks, i))
    ensures IsAll(Without(ks, i)) && HoldItems(Without(ks, i), Without(vs, i))
    ensures Is(ks[i]) && Holds(ks[i], vs[i])
  {
    hide FootAll, Is, Holds, Apart;
    var s, t := Without(ks, i), Without(vs, i);
    forall j | 0 <= j < |s|
      ensures Is(s[j]) && Holds(s[j], t[j])
    {
      if j < i {
        assert s[j] == ks[j] && t[j] == vs[j];
      } else {
        assert s[j] == ks[j + 1] && t[j] == vs[j + 1];
      }
    }
  }

  /** `cJSON_DetachItemFromArray` hands over the child it counts to, with everything it owns, or nothing. */
  method DetachItemFromArray(parent: Item, which: int, ghost ks: seq<Shape>, ghost vs: seq<Json>) returns (c: Item?)
    requires Children(parent, ks, vs)
    modifies parent`child, Nodes(ks)`next, Nodes(ks)`prev
    ensures c == null <==> Index(which) >= |ks|
    ensures c == null ==> Children(parent, ks, vs)
    ensures c != null ==>
      var i := Index(which);
      && Children(parent, Without(ks, i), Without(vs, i)) && Detached(c, ks[i], vs[i])
      && FootAll(Without(ks, i)) !! ks[i].foot && parent !in ks[i].foot
  {
    hide FootAll, Is, Holds, Apart, IsAll, HoldItems;
    Allocated(ks);
    c := Nth(parent, which, ks);
    if c == null {
      return null;
    }
    ghost var i := Index(which);
    Facts(ks, vs);
    Links(parent.child, ks);
    ApartRemove(ks, i);
    if c.prev != null {
      SetNextIn(c.prev, c.next, i - 1, ks, vs);
    }
    if c.next != null {
      SetPrevIn(c.next, c.prev, i + 1, ks, vs);
    }
    if c == parent.child {
      parent.child := c.next;
    }
    SetPrevIn(c, null, i, ks, vs);
    SetNextIn(c, null, i, ks, vs);
    LinkedRemove(parent.child, ks, i);
    RemovedTree(ks, vs, i);
  }

  /** `cJSON_DeleteItemFromArray` */
  method DeleteItemFromArray(h: Heap, parent: Item, which: int, ghost ks: seq<Shape>, ghost vs: seq<Json>)
    requires Children(parent, ks, vs) && FootAll(ks) <= h.live && h !in FootAll(ks)
    modifies h, parent`child, FootAll(ks)
    ensures var i := Index(which);
      if i < |ks| then
        Children(parent, Without(ks, i), Without(vs, i)) && h.live == old(h.live) - ks[i].foot
      else
        Children(parent, ks, vs) && h.live == old(h.live)
  {
    hide FootAll, Is, Holds, Apart, IsAll, HoldItems, Linked, Forward;
    Allocated(ks);
    NodesIn(parent, ks, vs);
    var c := DetachItemFromArray(parent, which, ks, vs);
    if c != null {
      ghost var k := ks[Index(which)];
      Single(k);
      Delete(h, c, [k]);
    }
  }

  lemma NodesIn(parent: Item, ks: seq<Shape>, vs: seq<Json>)
    requires Children(parent, ks, vs)
    ensures Nodes(ks) <= FootAll(ks)
    ensures forall i :: 0 <= i < |ks| ==> ks[i].foot <= FootAll(ks) && FootAll(Without(ks, i)) <= FootAll(ks)
  {
    Distinct(ks);
    forall i | 0 <= i < |ks|
      ensures ks[i].foot <= FootAll(ks) && FootAll(Without(ks, i)) <= FootAll(ks)
    {
      ApartRemove(ks, i);
    }
  }

  // ---------- Replacing ----------

  lemma ApartReplace(ks: seq<Shape>, i: nat, k: Shape)
    requires i < |ks| && Apart(ks) && k.node in k.foot && FootAll(ks) !! k.foot
    ensures Apart(ks[i := k]) && FootAll(ks[i := k]) !! ks[i].foot
    ensures FootAll(ks[i := k]) <= FootAll(ks) + k.foot
  {
    ApartRemove(ks, i);
    ApartInsert(Without(ks, i), i, k);
    hide *;
    assert Insert(Without(ks, i), i, k) == ks[i := k] by { InsertRemoved(ks, i, k); }
  }

  lemma InsertRemoved<T>(s: seq<T>, i: nat, x: T)
    requires i < |s|
    ensures Insert(Without(s, i), i, x) == s[i := x]
  {
  }

  /** The links after the child at `i` has given its place to another node. */
  lemma LinkedReplace(first: Item?, ks: seq<Shape>, i: nat, k: Shape)
    requires i < |ks| && Apart(ks[i := k])
    requires first == if i == 0 then k.node else ks[0].node
    requires forall j {:trigger ks[j].node.next} :: 0 <= j < |ks| && j != i ==>
      ks[j].node.next == if j + 1 == i then k.node else if j + 1 < |ks| then ks[j + 1].node else null
    requires forall j {:trigger ks[j].node.prev} :: 0 <= j < |ks| && j != i ==>
      ks[j].node.prev == if j == i + 1 then k.node else if j > 0 then ks[j - 1].node else null
    requires k.node.next == if i + 1 < |ks| then ks[i + 1].node else null
    requires k.node.prev == if i > 0 then ks[i - 1].node else null
    ensures Linked(first, ks[i := k])
  {
    hide FootAll, Apart;
    var s := ks[i := k];
    forall j | 0 <= j < |s|
      ensures s[j].node.next == if j + 1 < |s| then s[j + 1].node else null
      ensures s[j].node.prev == if j > 0 then s[j - 1].node else null
    {
      if j != i {
        assert s[j] == ks[j];
      }
    }
  }

  lemma ReplacedTree(ks: seq<Shape>, vs: seq<Json>, i: nat, k: Shape, v: Json)
    requires IsAll(ks) && HoldItems(ks, vs) && Is(k) && Holds(k, v) && i < |ks| && Apart(ks[i := k])
    ensures IsAll(ks[i := k]) && HoldItems(ks[i := k], vs[i := v]) && Is(ks[i])
  {
    hide FootAll, Is, Holds, Apart;
  }

  /** `cJSON_ReplaceItemInArray` puts the new tree in the place of the child it counts to and deletes that child. */
  method ReplaceItemInArray(h: Heap, parent: Item, which: int, item: Item, ghost ks: seq<Shape>, ghost vs: seq<Json>,
                            ghost k: Shape, ghost v: Json)
    requires Children(parent, ks, vs) && Detached(item, k, v) && FootAll(ks) !! k.foot && parent !in k.foot
    requires FootAll(ks) <= h.live && h !in FootAll(ks) && h !in k.foot
    modifies h, parent`child, item`next, item`prev, FootAll(ks)
    ensures var i := Index(which);
      if i < |ks| then
        Children(parent, ks[i := k], vs[i := v]) && h.live == old(h.live) - ks[i].foot
      else
        Children(parent, ks, vs) && Detached(item, k, v) && h.live == old(h.live)
  {
    hide FootAll, Is, Holds, Apart, IsAll, HoldItems, Linked, Forward;
    Allocated(ks);
    NodesIn(parent, ks, vs);
    var c := Nth(parent, which, ks);
    if c == null {
      return;
    }
    ghost var i := Index(which);
    SwapIn(parent, c, item, i, ks, vs, k, v);
    Allocated(ks[i := k]);
    Single(ks[i]);
    Delete(h, c, [ks[i]]);
  }

  /** The new node is linked in the place of `c`; `c` still has its own links. */
  method LinkInstead(parent: Item, c: Item, item: Item, ghost i: nat, ghost ks: seq<Shape>, ghost vs: seq<Json>,
                     ghost k: Shape, ghost v: Json)
    requires Children(parent, ks, vs) && Detached(item, k, v) && FootAll(ks) !! k.foot && parent !in k.foot
    requires i < |ks| && c == ks[i].node
    modifies parent`child, item`next, item`prev, Nodes(ks)`next, Nodes(ks)`prev
    ensures IsAll(ks) && HoldItems(ks, vs) && Is(k) && Holds(k, v)
    ensures parent.child == if i == 0 then item else ks[0].node
    ensures forall j {:trigger ks[j].node.next} :: 0 <= j < |ks| && j != i ==>
      ks[j].node.next == if j + 1 == i then item else if j + 1 < |ks| then ks[j + 1].node else null
    ensures forall j {:trigger ks[j].node.prev} :: 0 <= j < |ks| && j != i ==>
      ks[j].node.prev == if j == i + 1 then item else if j > 0 then ks[j - 1].node else null
    ensures item.next == if i + 1 < |ks| then ks[i + 1].node else null
    ensures item.prev == if i > 0 then ks[i - 1].node else null
  {
    hide FootAll, Is, Holds, Apart, IsAll, HoldItems, LinkedTo;
    Allocated(ks);
    Facts(ks, vs);
    Links(parent.child, ks);
    NodeIn(k);
    SetLinks(item, c.next, c.prev, k, v);
    SetNeighbours(parent, c, item, i, ks, vs);
  }

  /** The links that lead to `c` are set to lead to `item`, which has the links of `c`. */
  method SetNeighbours(parent: Item, c: Item, item: Item, ghost i: nat, ghost ks: seq<Shape>, ghost vs: seq<Json>)
    requires IsAll(ks) && HoldItems(ks, vs) && i < |ks| && c == ks[i].node && item !in FootAll(ks) && parent !in FootAll(ks)
    requires parent.child == ks[0].node && item.next == c.next && item.prev == c.prev
    requires forall j {:trigger ks[j].node.next} :: 0 <= j < |ks| ==>
      ks[j].node.next == if j + 1 < |ks| then ks[j + 1].node else null
    requires forall j {:trigger ks[j].node.prev} :: 0 <= j < |ks| ==>
      ks[j].node.prev == if j > 0 then ks[j - 1].node else null
    modifies parent`child, Nodes(ks)`next, Nodes(ks)`prev
    ensures IsAll(ks) && HoldItems(ks, vs) && parent.child == if i == 0 then item else ks[0].node
    ensures forall j {:trigger ks[j].node.next} :: 0 <= j < |ks| && j != i ==>
      ks[j].node.next == if j + 1 == i then item else if j + 1 < |ks| then ks[j + 1].node else null
    ensures forall j {:trigger ks[j].node.prev} :: 0 <= j < |ks| && j != i ==>
      ks[j].node.prev == if j == i + 1 then item else if j > 0 then ks[j - 1].node else null
  {
    hide FootAll, Is, Holds, Apart, IsAll, HoldItems;
    Allocated(ks);
    Facts(ks, vs);
    if item.next != null {
      SetPrevIn(item.next, item, i + 1, ks, vs);
    }
    if c == parent.child {
      parent.child := item;
    } else {
      SetNextIn(item.prev, item, i - 1, ks, vs);
    }
  }

  method SwapIn(parent: Item, c: Item, item: Item, ghost i: nat, ghost ks: seq<Shape>, ghost vs: seq<Json>,
                ghost k: Shape, ghost v: Json)
    requires Children(parent, ks, vs) && Detached(item, k, v) && FootAll(ks) !! k.foot && parent !in k.foot
    requires i < |ks| && c == ks[i].node
    modifies parent`child, item`next, item`prev, Nodes(ks)`next, Nodes(ks)`prev
    ensures Children(parent, ks[i := k], vs[i := v]) && FootAll(ks[i := k]) <= FootAll(ks) + k.foot
    ensures Is(ks[i]) && c.next == null && FootAll(ks[i := k]) !! ks[i].foot && parent !in ks[i].foot
  {
    hide FootAll, Is, Holds, Apart, IsAll, HoldItems;
    Allocated(ks);
    Facts(ks, vs);
    NodeIn(k);
    ApartReplace(ks, i, k);
    FootIn(ks, i);
    LinkInstead(parent, c, item, i, ks, vs, k, v);
    SetPrevIn(c, null, i, ks, vs);
    SetNextIn(c, null, i, ks, vs);
    LinkedReplace(parent.child, ks, i, k);
    ReplacedTree(ks, vs, i, k, v);
  }
}
