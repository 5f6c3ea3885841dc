/** Wherever brackets nest, some table makes the order of the replacements matter. */
module NestingClash {
  import opened Nesting
  import opened Substitution

  /** Plain bytes and complete groups only. */
  predicate Flat(y: string) {
    y == "" ||
    (if y[0] == '[' then GroupLength(y) > 0 && Flat(y[GroupLength(y)..]) else y[0] != ']' && Flat(y[1..]))
  }

  // ---------- Cutting a text into parts that are replaced on their own ----------

  /** A cut before an opening bracket splits no token. */
  lemma {:induction false} CutBefore(p: string, q: string, e: Entry)
    requires GoodEntry(e) && q != "" && q[0] == '['
    ensures Replaced(p + q, e.token, e.value) == Replaced(p, e.token, e.value) + Replaced(q, e.token, e.value)
    decreases |p|
  {
    hide Replaced, GroupLength;
    ReplacedStart(p, e);
    if p == "" {
      assert p + q == q && "" + Replaced(q, e.token, e.value) == Replaced(q, e.token, e.value);
    } else {
      Prefixes(p, q, e);
      ReplacedStart(p + q, e);
      if e.token <= p {
        CutBefore(p[|e.token|..], q, e);
        DropFront(p, q, |e.token|);
        Join(e.value, Replaced(p[|e.token|..], e.token, e.value), Replaced(q, e.token, e.value));
      } else {
        CutBefore(p[1..], q, e);
        DropFront(p, q, 1);
        FromHead(Replaced(p + q, e.token, e.value), Replaced(p, e.token, e.value), Replaced(q, e.token, e.value));
      }
    }
  }

  lemma DropFront(p: string, q: string, n: nat)
    requires n <= |p|
    ensures (p + q)[n..] == p[n..] + q && p[..n] <= p + q && (p != "" ==> p + q != "" && (p + q)[0] == p[0])
  {
  }

  lemma Join(a: string, b: string, c: string)
    ensures a + (b + c) == (a + b) + c
  {
  }

  lemma FromHead(a: string, b: string, c: string)
    requires a != "" && b != "" && a[0] == b[0] && a[1..] == b[1..] + c
    ensures a == b + c
  {
    assert a == [a[0]] + a[1..] && b == [b[0]] + b[1..];
  }

  lemma Prefixes(p: string, q: string, e: Entry)
    requires GoodEntry(e) && p != "" && q != "" && q[0] == '['
    ensures e.token <= p + q <==> e.token <= p
    ensures e.token != ""
  {
    assert (p + q)[|p|] == '[';
    if e.token <= p + q && |p| < |e.token| {
      BracketedInside(e.token, |p|);
      assert false;
    }
  }

  /** Behind plain bytes and complete groups a closing bracket ends no token. */
  lemma {:induction false} CutBehind(y: string, t: string, e: Entry)
    requires GoodEntry(e) && Flat(y)
    ensures Replaced(y + ("]" + t), e.token, e.value) ==
      Replaced(y, e.token, e.value) + ("]" + Replaced(t, e.token, e.value))
    ensures Flat(Replaced(y, e.token, e.value))
    decreases |y|
  {
    hide Replaced, GroupLength, Flat;
    FlatStart(y);
    var q := "]" + t;
    if y == "" {
      Closing(t, e);
      ReplacedStart(y, e);
      assert y + q == q;
      assert "" + ("]" + Replaced(t, e.token, e.value)) == "]" + Replaced(t, e.token, e.value);
    } else if y[0] == '[' {
      CutBehind(y[GroupLength(y)..], t, e);
      CutGroup(y, q, "]" + Replaced(t, e.token, e.value), e);
    } else {
      CutBehind(y[1..], t, e);
      CutByte(y, q, "]" + Replaced(t, e.token, e.value), e);
    }
  }

  lemma FlatStart(y: string)
    ensures y == "" ==> Flat(y)
    ensures y != "" ==>
      (Flat(y) <==> if y[0] == '[' then GroupLength(y) > 0 && Flat(y[GroupLength(y)..]) else y[0] != ']' && Flat(y[1..]))
  {
  }

  lemma Closing(t: string, e: Entry)
    requires GoodEntry(e)
    ensures Replaced("]" + t, e.token, e.value) == "]" + Replaced(t, e.token, e.value)
  {
    hide Replaced;
    ReplacedStart("]" + t, e);
    assert ("]" + t)[1..] == t;
    FromHead(Replaced("]" + t, e.token, e.value), "]", Replaced(t, e.token, e.value));
  }

  lemma CutGroup(y: string, q: string, r: string, e: Entry)
    requires GoodEntry(e) && y != "" && GroupLength(y) > 0
    requires var z := y[GroupLength(y)..];
      && Replaced(z + q, e.token, e.value) == Replaced(z, e.token, e.value) + r && Flat(Replaced(z, e.token, e.value))
    ensures Replaced(y + q, e.token, e.value) == Replaced(y, e.token, e.value) + r
    ensures Flat(Replaced(y, e.token, e.value))
  {
    hide Replaced, GroupLength, Flat;
    var n := GroupLength(y);
    var g, z := y[..n], y[n..];
    DropFront(y, q, n);
    if e.token == g {
      ReplacedStart(y, e);
      ReplacedStart(y + q, e);
      FlatPlain(e.value, Replaced(z, e.token, e.value));
      Join(e.value, Replaced(z, e.token, e.value), r);
    } else {
      KeepToken(y, e, g);
      KeepToken(y + q, e, g);
      FlatGroup(g, Replaced(z, e.token, e.value));
      Join(g, Replaced(z, e.token, e.value), r);
    }
  }

  lemma CutByte(y: string, q: string, r: string, e: Entry)
    requires GoodEntry(e) && y != "" && y[0] != '[' && y[0] != ']'
    requires var z := y[1..];
      && Replaced(z + q, e.token, e.value) == Replaced(z, e.token, e.value) + r && Flat(Replaced(z, e.token, e.value))
    ensures Replaced(y + q, e.token, e.value) == Replaced(y, e.token, e.value) + r
    ensures Flat(Replaced(y, e.token, e.value))
  {
    hide Replaced, GroupLength;
    DropFront(y, q, 1);
    assert !(e.token <= y) && !(e.token <= y + q);
    ReplacedStart(y, e);
    ReplacedStart(y + q, e);
    FromHead(Replaced(y + q, e.token, e.value), Replaced(y, e.token, e.value), r);
  }

  lemma {:induction false} FlatPlain(p: string, t: string)
    requires NoBracket(p) && Flat(t)
    ensures Flat(p + t)
    decreases |p|
  {
    if p == "" {
      assert p + t == t;
    } else {
      FlatPlain(p[1..], t);
      assert (p + t)[1..] == p[1..] + t && (p + t)[0] == p[0];
    }
  }

  lemma FlatGroup(g: string, t: string)
    requires Bracketed(g) && Flat(t)
    ensures Flat(g + t)
  {
    GroupIs(g + t, g);
    assert (g + t)[|g|..] == t;
  }

  // ---------- A bracket around groups ----------

  /** What a bracket encloses. */
  lemma {:induction false} Enclosed(t: string, some: bool) returns (y: string, post: string)
    requires Encloses(t, some)
    ensures t == y + ("]" + post) && Flat(y) && (some || '[' in y)
    decreases |t|
  {
    hide GroupLength, Flat;
    if t[0] == ']' {
      y, post := "", t[1..];
      FlatStart("");
      assert t == "]" + post;
    } else {
      var n := if t[0] == '[' then GroupLength(t) else 1;
      var z;
      z, post := Enclosed(t[n..], some || t[0] == '[');
      y := t[..n] + z;
      assert t == t[..n] + t[n..];
      Join(t[..n], z, "]" + post);
      if t[0] == '[' {
        FlatGroup(t[..n], z);
        assert y[0] == '[';
      } else {
        FlatPlain(t[..n], z);
        assert forall c :: c in z ==> c in y;
      }
    }
  }

  lemma {:induction false} FindNested(s: string) returns (pre: string, y: string, post: string)
    requires Nested(s)
    ensures s == pre + ("[" + (y + ("]" + post))) && Flat(y) && '[' in y
    decreases |s|
  {
    hide GroupLength, Flat, Encloses;
    if s[0] == '[' && Encloses(s[1..], false) {
      pre := "";
      y, post := Enclosed(s[1..], false);
      assert s == "[" + s[1..];
    } else {
      pre, y, post := FindNested(s[1..]);
      assert s == [s[0]] + s[1..];
      Join([s[0]], pre, "[" + (y + ("]" + post)));
      pre := [s[0]] + pre;
    }
  }

  // ---------- The passes around a bracket ----------

  /** No token of at most `n` bytes stands at a bracket that encloses a group or more than `n` bytes. */
  lemma NoTokenAround(y: string, post: string, token: string, n: nat)
    requires Bracketed(token) && |token| <= n && Flat(y) && ('[' in y || |y| > n)
    ensures !(token <= "[" + (y + ("]" + post)))
  {
    var t := "[" + (y + ("]" + post));
    if token <= t {
      var k := |token| - 2;
      assert forall i :: 1 <= i < |token| ==> t[i] == token[i];
      if |y| > k {
        FlatPrefix(y, k);
        assert y[k] == t[k + 1];
        forall i | 0 <= i < k
          ensures y[i] != '[' && y[i] != ']'
        {
          BracketedInside(token, i + 1);
          assert y[i] == t[i + 1];
        }
        assert false;
      } else {
        forall i | 0 <= i < |y|
          ensures y[i] != '['
        {
          BracketedInside(token, i + 1);
          assert y[i] == t[i + 1];
        }
        assert false;
      }
    }
  }

  /** In plain bytes and complete groups the first bracket opens one. */
  lemma {:induction false} FlatPrefix(y: string, k: nat)
    requires Flat(y) && k < |y| && y[k] == ']'
    ensures exists i :: 0 <= i < k && (y[i] == '[' || y[i] == ']')
    decreases |y|
  {
    if y[0] == '[' {
      assert k > 0;
    } else {
      FlatPrefix(y[1..], k - 1);
      var i :| 0 <= i < k - 1 && (y[1..][i] == '[' || y[1..][i] == ']');
      assert y[i + 1] == y[1..][i];
    }
  }

  /** A pass replaces before, in and behind the bracket, each on its own. */
  lemma PassAround(pre: string, y: string, post: string, e: Entry, n: nat)
    requires GoodEntry(e) && |e.token| <= n && Flat(y) && ('[' in y || |y| > n)
    ensures Replaced(pre + ("[" + (y + ("]" + post))), e.token, e.value) == Replaced(pre, e.token, e.value) +
      ("[" + (Replaced(y, e.token, e.value) + ("]" + Replaced(post, e.token, e.value))))
    ensures Flat(Replaced(y, e.token, e.value))
  {
    hide Replaced, Flat, GroupLength;
    var t := y + ("]" + post);
    CutBefore(pre, "[" + t, e);
    NoTokenAround(y, post, e.token, n);
    CutBehind(y, post, e);
    ReplacedStart("[" + t, e);
    assert ("[" + t)[1..] == t;
    FromHead(Replaced("[" + t, e.token, e.value), "[", Replaced(t, e.token, e.value));
  }

  // ---------- The table of the groups ----------

  predicate HasToken(table: seq<Entry>, token: string) {
    exists i :: 0 <= i < |table| && table[i].token == token
  }

  /** Each group is a token of the table. */
  predicate Covered(y: string, table: seq<Entry>) {
    y == "" ||
    (if y[0] == '[' then GroupLength(y) > 0 && HasToken(table, y[..GroupLength(y)]) && Covered(y[GroupLength(y)..], table)
     else y[0] != ']' && Covered(y[1..], table))
  }

  function GroupTable(y: string, value: string): seq<Entry>
    requires Flat(y)
  {
    if y == "" then []
    else if y[0] != '[' then GroupTable(y[1..], value)
    else
      var n := GroupLength(y);
      var rest := GroupTable(y[n..], value);
      if HasToken(rest, y[..n]) then rest else [Entry(y[..n], value)] + rest
  }

  lemma {:induction false} CoveredMore(y: string, e: Entry, table: seq<Entry>)
    requires Covered(y, table)
    ensures Covered(y, [e] + table)
    decreases |y|
  {
    if y != "" {
      assert forall i :: 0 <= i < |table| ==> table[i] == ([e] + table)[i + 1];
      CoveredMore(if y[0] == '[' then y[GroupLength(y)..] else y[1..], e, table);
    }
  }

  /** All entries are good, their tokens no longer than `n`, and their values this one. */
  predicate Uniform(table: seq<Entry>, n: nat, value: string) {
    forall i :: 0 <= i < |table| ==> GoodEntry(table[i]) && |table[i].token| <= n && table[i].value == value
  }

  lemma {:induction false} GroupTableGood(y: string, value: string)
    requires Flat(y) && NoBracket(value)
    ensures var t := GroupTable(y, value); GoodTable(t) && Uniform(t, |y|, value) && Covered(y, t)
    decreases |y|
  {
    hide GroupLength, GoodEntry, NoBracket;
    if y != "" {
      var n := if y[0] == '[' then GroupLength(y) else 1;
      var rest := GroupTable(y[n..], value);
      GroupTableGood(y[n..], value);
      if y[0] == '[' && !HasToken(rest, y[..n]) {
        var e := Entry(y[..n], value);
        GoodHead(e, rest, |y|, value);
        CoveredMore(y[n..], e, rest);
        assert ([e] + rest)[0] == e;
      }
    }
  }

  lemma GoodHead(e: Entry, rest: seq<Entry>, n: nat, value: string)
    requires Bracketed(e.token) && NoBracket(value) && |e.token| <= n && e.value == value
    requires GoodTable(rest) && Uniform(rest, n, value) && !HasToken(rest, e.token)
    ensures GoodTable([e] + rest) && Uniform([e] + rest, n, value)
  {
    hide NoBracket, Bracketed;
  }

  // ---------- The passes over that table ----------

  lemma {:induction false} CoveredPlain(p: string, t: string, table: seq<Entry>)
    requires NoBracket(p) && Covered(t, table)
    ensures Covered(p + t, table)
    decreases |p|
  {
    if p == "" {
      assert p + t == t;
    } else {
      CoveredPlain(p[1..], t, table);
      assert (p + t)[1..] == p[1..] + t && (p + t)[0] == p[0];
    }
  }

  lemma CoveredGroup(g: string, t: string, table: seq<Entry>)
    requires Bracketed(g) && HasToken(table, g) && Covered(t, table)
    ensures Covered(g + t, table)
  {
    GroupIs(g + t, g);
    assert (g + t)[|g|..] == t && (g + t)[..|g|] == g;
  }

  lemma LaterToken(table: seq<Entry>, g: string)
    requires HasToken(table, g) && table[0].token != g
    ensures HasToken(table[1..], g)
  {
    var i :| 0 <= i < |table| && table[i].token == g;
    assert table[1..][i - 1] == table[i];
  }

  /** A pass leaves only groups that later entries replace. */
  lemma {:induction false} CoveredPass(y: string, table: seq<Entry>)
    requires table != [] && GoodEntry(table[0]) && Covered(y, table)
    ensures Covered(Replaced(y, table[0].token, table[0].value), table[1..])
    decreases |y|
  {
    hide Replaced, GroupLength, HasToken;
    var e := table[0];
    ReplacedStart(y, e);
    if y != "" && y[0] == '[' {
      var n := GroupLength(y);
      var g := y[..n];
      CoveredPass(y[n..], table);
      if e.token == g {
        CoveredPlain(e.value, Replaced(y[n..], e.token, e.value), table[1..]);
      } else {
        KeepToken(y, e, g);
        LaterToken(table, g);
        CoveredGroup(g, Replaced(y[n..], e.token, e.value), table[1..]);
      }
    } else if y != "" {
      CoveredPass(y[1..], table);
      var r := Replaced(y, e.token, e.value);
      assert r[0] == y[0];
    }
  }

  lemma {:induction false} CoveredByNone(y: string)
    requires Covered(y, [])
    ensures NoBracket(y)
    decreases |y|
  {
    if y != "" {
      CoveredByNone(y[1..]);
      assert y == [y[0]] + y[1..];
    }
  }

  lemma {:induction false} Grows(z: string, e: Entry)
    requires GoodEntry(e) && |e.token| <= |e.value|
    ensures |Replaced(z, e.token, e.value)| >= |z|
    decreases |z|
  {
    hide Replaced;
    ReplacedStart(z, e);
    if z != "" {
      Grows(if e.token <= z then z[|e.token|..] else z[1..], e);
    }
  }

  /** A group is left, or one has been replaced. */
  lemma {:induction false} GroupOrLong(y: string, e: Entry)
    requires GoodEntry(e) && Flat(y) && '[' in y
    ensures '[' in Replaced(y, e.token, e.value) || |Replaced(y, e.token, e.value)| >= |e.value|
    decreases |y|
  {
    hide Replaced, GroupLength;
    ReplacedStart(y, e);
    var r := Replaced(y, e.token, e.value);
    if !(e.token <= y) && y[0] != '[' {
      assert y == [y[0]] + y[1..];
      GroupOrLong(y[1..], e);
      assert r == [r[0]] + r[1..];
    }
  }

  lemma StillAround(y: string, e: Entry, n: nat)
    requires GoodEntry(e) && |e.token| <= n < |e.value| && Flat(y) && ('[' in y || |y| > n)
    ensures var r := Replaced(y, e.token, e.value); '[' in r || |r| > n
  {
    hide Replaced, Flat;
    if |y| > n {
      Grows(y, e);
    } else {
      GroupOrLong(y, e);
    }
  }

  /** In the end the bracket encloses a long text without brackets. */
  lemma {:induction false} FoldAround(pre: string, y: string, post: string, table: seq<Entry>, n: nat, value: string)
    requires GoodTable(table) && Tokens(table) && Uniform(table, n, value) && |value| > n
    requires Flat(y) && Covered(y, table) && ('[' in y || |y| > n)
    ensures Fold(pre + ("[" + (y + ("]" + post))), table) ==
      Fold(pre, table) + ("[" + (Fold(y, table) + ("]" + Fold(post, table))))
    ensures NoBracket(Fold(y, table)) && |Fold(y, table)| > n
    decreases |table|
  {
    hide Replaced, Flat, Covered, NoBracket, GoodEntry;
    if table == [] {
      CoveredByNone(y);
      NoBracketIn(y);
    } else {
      var e := table[0];
      TailGood(table);
      PassAround(pre, y, post, e, n);
      StillAround(y, e, n);
      CoveredPass(y, table);
      FoldAround(Replaced(pre, e.token, e.value), Replaced(y, e.token, e.value), Replaced(post, e.token, e.value),
        table[1..], n, value);
    }
  }

  lemma NoBracketIn(y: string)
    requires NoBracket(y)
    ensures '[' !in y
  {
  }

  // ---------- The clash ----------

  lemma {:induction false} TooLong(s: string, e: Entry)
    requires GoodEntry(e) && |e.token| > |s|
    ensures Replaced(s, e.token, e.value) == s
    decreases |s|
  {
    hide Replaced;
    ReplacedStart(s, e);
    if s != "" {
      TooLong(s[1..], e);
      var r := Replaced(s, e.token, e.value);
      assert r == [r[0]] + r[1..] && s == [s[0]] + s[1..];
    }
  }

  lemma {:induction false} Shrinks(z: string, e: Entry)
    requires GoodEntry(e) && e.value == ""
    ensures |Replaced(z, e.token, e.value)| <= |z|
    decreases |z|
  {
    hide Replaced;
    ReplacedStart(z, e);
    if z != "" {
      Shrinks(if e.token <= z then z[|e.token|..] else z[1..], e);
    }
  }

  /** A token that is there can be replaced by nothing, which makes the text shorter. */
  lemma Vanishes(pre: string, e: Entry, post: string)
    requires GoodEntry(e) && e.value == ""
    ensures |Replaced(pre + (e.token + post), e.token, e.value)| < |pre + (e.token + post)|
  {
    hide Replaced;
    var t := e.token + post;
    CutBefore(pre, t, e);
    ReplacedStart(t, e);
    assert e.token <= t && t[|e.token|..] == post;
    Shrinks(pre, e);
    Shrinks(post, e);
  }

  function Filler(n: nat): (s: string)
    ensures |s| == n && NoBracket(s) && '\0' !in s
  {
    seq(n, _ => 'x')
  }

  predicate NulFree(table: seq<Entry>) {
    forall i :: 0 <= i < |table| ==> '\0' !in table[i].token && '\0' !in table[i].value
  }

  lemma {:induction false} GroupTableNulFree(y: string, value: string)
    requires Flat(y) && '\0' !in y && '\0' !in value
    ensures NulFree(GroupTable(y, value))
    decreases |y|
  {
    hide GroupLength, HasToken;
    if y != "" {
      GroupTableNulFree(if y[0] == '[' then y[GroupLength(y)..] else y[1..], value);
    }
  }

  lemma {:induction false} FoldNulFree(s: string, table: seq<Entry>)
    requires Tokens(table) && NulFree(table) && '\0' !in s
    ensures '\0' !in Fold(s, table)
    decreases |table|
  {
    hide Replaced;
    if table != [] {
      ReplacedNoNul(s, table[0].token, table[0].value);
      FoldNulFree(Replaced(s, table[0].token, table[0].value), table[1..]);
    }
  }

  lemma ClashNulFree(y: string, value: string, inner: seq<Entry>, e: Entry)
    requires Flat(y) && inner == GroupTable(y, value) && Tokens(inner) && '\0' !in y && '\0' !in value
    requires e == Entry("[" + Fold(y, inner) + "]", "")
    ensures NulFree(inner + [e]) && NulFree([e] + inner)
  {
    GroupTableNulFree(y, value);
    FoldNulFree(y, inner);
    hide Fold, GroupTable;
  }

  /** The groups first and then the bracket that has come about around their values, or the other way round. */
  lemma Clash(s: string) returns (a: seq<Entry>, b: seq<Entry>)
    requires Nested(s)
    ensures GoodTable(a) && GoodTable(b) && SameEntries(a, b) && Tokens(a) && Tokens(b) && Fold(s, a) != Fold(s, b)
    ensures '\0' !in s ==> NulFree(a) && NulFree(b)
  {
    hide Replaced, Flat, Covered, GroupTable, Fold, Nested;
    var n, value := |s|, Filler(|s| + 1);
    var pre, y, post := FindNested(s);
    GroupTableGood(y, value);
    var inner := GroupTable(y, value);
    FoldAround(pre, y, post, inner, n, value);
    var name := Fold(y, inner);
    var e := Entry("[" + name + "]", "");
    OuterGood(inner, e, name, n, value);
    a, b := inner + [e], [e] + inner;
    if '\0' !in s {
      assert forall c :: c in y ==> c in s;
      ClashNulFree(y, value, inner, e);
    }
    FoldMore(s, inner, e);
    assert Fold(s, b) == Fold(Replaced(s, e.token, e.value), inner) by { FoldFirst(s, e, inner); }
    TooLong(s, e);
    assert "[" + (name + ("]" + Fold(post, inner))) == e.token + Fold(post, inner);
    Vanishes(Fold(pre, inner), e, Fold(post, inner));
  }

  lemma FoldFirst(s: string, e: Entry, table: seq<Entry>)
    requires Tokens(table) && e.token != ""
    ensures Tokens([e] + table) && Fold(s, [e] + table) == Fold(Replaced(s, e.token, e.value), table)
  {
    assert ([e] + table)[1..] == table;
  }

  lemma OuterGood(inner: seq<Entry>, e: Entry, name: string, n: nat, value: string)
    requires GoodTable(inner) && Uniform(inner, n, value) && NoBracket(name) && |name| > n && e == Entry("[" + name + "]", "")
    ensures GoodEntry(e) && GoodTable(inner + [e]) && GoodTable([e] + inner) && SameEntries(inner + [e], [e] + inner)
    ensures Tokens(inner + [e]) && Tokens([e] + inner) && Tokens(inner)
  {
    assert e.token[1..|e.token| - 1] == name;
    hide NoBracket;
  }

  // ---------- Exactly when the order makes no difference ----------

  /** All good tables with the same entries have the same effect. */
  ghost predicate Orderless(s: string) {
    forall a, b :: GoodTable(a) && GoodTable(b) && Tokens(a) && Tokens(b) && SameEntries(a, b) ==> Fold(s, a) == Fold(s, b)
  }

  /** Replacing one after the other is replacing all at once, for every good table. */
  ghost predicate AllAtOnce(s: string) {
    forall table :: GoodTable(table) && Tokens(table) ==> Fold(s, table) == Subst(s, table)
  }

  /**
    The order of the table makes no difference exactly if no bracket encloses plain bytes and complete groups only, at
    least one of them; and exactly then the passes replace all tokens at once.
   */
  lemma OrderFreeIff(s: string)
    ensures Orderless(s) <==> !Nested(s)
    ensures AllAtOnce(s) <==> !Nested(s)
  {
    hide Fold, Subst, GoodTable, Tokens, SameEntries, Nested;
    if Nested(s) {
      var a, b := Clash(s);
      assert !Orderless(s);
      SubstSame(s, a, b);
    } else {
      forall table | GoodTable(table) && Tokens(table)
        ensures Fold(s, table) == Subst(s, table)
      {
        FoldIsSubst(s, table);
      }
      forall a, b | GoodTable(a) && GoodTable(b) && Tokens(a) && Tokens(b) && SameEntries(a, b)
        ensures Fold(s, a) == Fold(s, b)
      {
        SubstSame(s, a, b);
      }
    }
  }
}
