/** Looking up the children of a node by position and by name. */
module ItemLookup {
  import opened Items
  import opened Json
  import opened Memory
  import ItemLists

  /** `tolower` */
  function Lower(c: char): char {
    if 'A' <= c <= 'Z' then (c as int + 32) as char else c
  }

  predicate SameFolded(a: string, b: string) {
    |a| == |b| && forall i :: 0 <= i < |a| ==> Lower(a[i]) == Lower(b[i])
  }

  /** The place of a letter in the alphabet, in either case; or 26. */
  function LetterPlace(c: char): (i: nat)
    ensures i <= 26
    ensures i < 26 ==> c == "ABCDEFGHIJKLMNOPQRSTUVWXYZ"[i] || c == "abcdefghijklmnopqrstuvwxyz"[i]
    ensures i == 26 ==> forall j :: 0 <= j < 26 ==> c != "ABCDEFGHIJKLMNOPQRSTUVWXYZ"[j] && c != "abcdefghijklmnopqrstuvwxyz"[j]
  {
    if 'A' <= c <= 'Z' then c as int - 'A' as int else if 'a' <= c <= 'z' then c as int - 'a' as int else 26
  }

  /** Two bytes match exactly if they are the same, or the two forms of one letter. */
  lemma FoldedBytes(a: char, b: char)
    ensures Lower(a) == Lower(b) <==> a == b || (LetterPlace(a) == LetterPlace(b) && LetterPlace(a) < 26)
  {
  }

  /** Two names match exactly if they do so byte by byte from the first to the last. */
  lemma FoldedNames(a: string, b: string)
    ensures SameFolded(a, b) <==> |a| == |b| && forall i :: 0 <= i < |a| ==>
      a[i] == b[i] || (LetterPlace(a[i]) == LetterPlace(b[i]) && LetterPlace(a[i]) < 26)
  {
    forall i | 0 <= i < |a| && |a| == |b|
      ensures Lower(a[i]) == Lower(b[i]) <==>
        a[i] == b[i] || (LetterPlace(a[i]) == LetterPlace(b[i]) && LetterPlace(a[i]) < 26)
    {
      FoldedBytes(a[i], b[i]);
    }
    hide Lower, LetterPlace;
  }

  /** `cJSON_strcasecmp`, for two strings that are there: whether it returns zero. */
  method EqualFolded(s1: array<char>, s2: string, ghost key: string) returns (same: bool)
    requires HoldsText(s1, key) && '\0' !in s2
    ensures same == SameFolded(key, s2)
  {
    var i := 0;
    while Lower(s1[i]) == Lower(if i < |s2| then s2[i] else '\0')
      invariant i <= |key| && i <= |s2| && SameFolded(key[..i], s2[..i])
      decreases |key| - i
    {
      assert s1[..|key|] == key;
      if s1[i] == '\0' {
        assert key[..i] == key && s2[..i] == s2;
        return true;
      }
      assert s1[i] == key[i];
      i := i + 1;
    }
    assert s1[..|key|] == key;
    return false;
  }

  /** The position of the first member whose key matches, or -1. */
  function Find(members: seq<Member>, key: string): (r: int)
    ensures -1 <= r < |members|
    ensures r >= 0 ==> SameFolded(members[r].key, key)
    ensures forall j :: 0 <= j < (if r < 0 then |members| else r) ==> !SameFolded(members[j].key, key)
  {
    if members == [] then -1
    else if SameFolded(members[0].key, key) then 0
    else
      var r := Find(members[1..], key);
      assert forall j :: 1 <= j < |members| ==> members[j] == members[1..][j - 1];
      if r < 0 then -1 else r + 1
  }

  function Members(v: Json): seq<Member> {
    if v.Object? then v.members else []
  }

  /** The string in a block, up to its terminator. */
  function UpToNul(s: string): (r: string)
    ensures '\0' in s ==> |r| < |s| && s[..|r|] == r && s[|r|] == '\0' && '\0' !in r
  {
    if s == "" || s[0] == '\0' then ""
    else
      var r := UpToNul(s[1..]);
      assert '\0' in s ==> '\0' in s[1..] && s[..|r| + 1] == [s[0]] + s[1..][..|r|];
      [s[0]] + r
  }

  lemma {:induction false} UpToText(a: string, s: string)
    requires |s| < |a| && a[..|s|] == s && a[|s|] == '\0' && '\0' !in s
    ensures UpToNul(a) == s
  {
    if s != "" {
      assert a[0] == s[0] && s == [s[0]] + s[1..];
      assert a[1..][..|s| - 1] == a[1..|s|] == s[1..];
      UpToText(a[1..], s[1..]);
    }
  }

  /** The node has a name, and it matches. */
  ghost predicate Named(c: Item, key: string)
    reads c, Block(c.name)
  {
    c.name != null && SameFolded(UpToNul(c.name[..]), key)
  }

  /**
    `cJSON_GetObjectItem`, for children in any chain, with names or not: the first one whose name matches; its number
    is `at`, which is -1 if there is none.
   */
  method GetObjectItem(parent: Item, key: string, ghost ks: seq<Shape>) returns (c: Item?, ghost at: int)
    requires Linked(parent.child, ks) && IsAll(ks) && '\0' !in key
    ensures -1 <= at < |ks| && c == (if at < 0 then null else ks[at].node) && (c != null ==> Named(c, key))
    ensures forall j :: 0 <= j < (if at < 0 then |ks| else at) ==> !Named(ks[j].node, key)
  {
    hide Is, FootAll, LinkedTo, UpToNul, SameFolded;
    Chain(parent.child, ks);
    c, at := parent.child, 0;
    while c != null
      invariant 0 <= at <= |ks| && c == (if at < |ks| then ks[at].node else null)
      invariant forall j :: 0 <= j < at ==> !Named(ks[j].node, key)
      decreases |ks| - at
    {
      var same := IsNamed(c, key, ks[at]);
      if same {
        return;
      }
      c, at := c.next, at + 1;
    }
    at := -1;
  }

  lemma Chain(first: Item?, ks: seq<Shape>)
    requires Linked(first, ks)
    ensures first == if ks == [] then null else ks[0].node
    ensures forall i {:trigger ks[i].node.next} :: 0 <= i < |ks| ==>
      ks[i].node.next == (if i + 1 < |ks| then ks[i + 1].node else null)
  {
    hide FootAll, Apart;
  }

  /** `!cJSON_strcasecmp(c->string,string)`: a node without a name matches nothing. */
  method IsNamed(c: Item, key: string, ghost k: Shape) returns (same: bool)
    requires Is(k) && c == k.node && '\0' !in key
    ensures same == Named(c, key)
  {
    hide Is, SameFolded;
    TextsEnd(k);
    if c.name == null {
      return false;
    }
    ghost var name := UpToNul(c.name[..]);
    assert c.name[..][..|name|] == c.name[..|name|];
    same := EqualFolded(c.name, key, name);
  }

  /** The node that is found belongs to the first member whose key matches. */
  lemma FoundMember(sh: Shape, v: Json, key: string, at: int)
    requires Is(sh) && Holds(sh, v) && NamesFit(sh, v) && -1 <= at < |sh.kids|
    requires at >= 0 ==> Named(sh.kids[at].node, key)
    requires forall j :: 0 <= j < (if at < 0 then |sh.kids| else at) ==> !Named(sh.kids[j].node, key)
    ensures at == Find(Members(v), key)
  {
    hide Is, Holds, FootAll, SameFolded, Named, NamesFit;
    KidCount(sh, v);
    forall j | 0 <= j < |sh.kids|
      ensures v.Object? ==> |v.members| == |sh.kids| && Named(sh.kids[j].node, key) == SameFolded(v.members[j].key, key)
      ensures v.Array? ==> !Named(sh.kids[j].node, key)
    {
      KidHolds(sh, v, j);
      TextsEnd(sh.kids[j]);
      if v.Object? {
        KidNamed(sh, v, j);
        MemberNamed(sh.kids[j], v.members[j], key);
      } else if v.Array? {
        ElementUnnamed(sh, v, j, key);
      }
    }
  }

  lemma MemberNamed(k: Shape, m: Member, key: string)
    requires HoldsMember(k, m) && k.node.name == k.name
    ensures Named(k.node, key) == SameFolded(m.key, key)
  {
    hide SameFolded;
    var a := k.name[..];
    assert a[..|m.key|] == k.name[..|m.key|];
    UpToText(a, m.key);
  }

  lemma ElementUnnamed(sh: Shape, v: Json, j: nat, key: string)
    requires v.Array? && NamesFit(sh, v) && j < |sh.kids| && sh.kids[j].node.name == sh.kids[j].name
    ensures !Named(sh.kids[j].node, key)
  {
  }

  /** `cJSON_GetArraySize` */
  method GetArraySize(item: Item, ghost ks: seq<Shape>) returns (n: nat)
    requires Linked(item.child, ks)
    ensures n == |ks|
  {
    hide FootAll, LinkedTo;
    Chain(item.child, ks);
    var c := item.child;
    n := 0;
    while c != null
      invariant n <= |ks| && c == (if n < |ks| then ks[n].node else null)
      decreases |ks| - n
    {
      c := c.next;
      n := n + 1;
    }
  }

  /** `cJSON_GetArrayItem` */
  method GetArrayItem(item: Item, which: int, ghost ks: seq<Shape>) returns (c: Item?)
    requires Linked(item.child, ks)
    ensures ks == [] || which >= |ks| ==> c == null
    ensures ks != [] && which <= 0 ==> c == ks[0].node
    ensures 0 <= which < |ks| ==> c == ks[which].node
  {
    hide FootAll, LinkedTo;
    c := ItemLists.Nth(item, which, ks);
  }

  lemma ChildrenLinked(sh: Shape)
    requires Is(sh) && !sh.node.isReference
    ensures Linked(sh.node.child, sh.kids) && IsAll(sh.kids)
  {
  }
}
