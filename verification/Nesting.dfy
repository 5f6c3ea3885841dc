/** When replacing tokens one after the other is replacing them all at once. */
module Nesting {
  import opened Substitution

  // ---------- Nested brackets ----------

  /** How many bytes come before the first bracket. */
  function PlainEnd(t: string): (n: nat)
    ensures n <= |t| && NoBracket(t[..n]) && (n < |t| ==> t[n] == '[' || t[n] == ']')
  {
    if t == "" || t[0] == '[' || t[0] == ']' then 0
    else
      var n := PlainEnd(t[1..]);
      assert t[..n + 1] == [t[0]] + t[1..][..n];
      n + 1
  }

  /** The length of the complete group at the start of the text, a bracket, plain bytes and a bracket; or 0. */
  function GroupLength(t: string): (n: nat)
    ensures n <= |t| && (n > 0 ==> Bracketed(t[..n]))
  {
    if t == "" || t[0] != '[' then 0
    else
      var n := PlainEnd(t[1..]);
      assert n + 2 <= |t| ==> t[..n + 2][1..n + 1] == t[1..][..n];
      if n + 1 < |t| && t[n + 1] == ']' then n + 2 else 0
  }

  /** Behind a bracket: plain bytes and complete groups up to its own closing bracket; `some` group has been passed. */
  predicate Encloses(t: string, some: bool) {
    t != "" &&
    (if t[0] == ']' then some
     else if t[0] == '[' then GroupLength(t) > 0 && Encloses(t[GroupLength(t)..], true)
     else Encloses(t[1..], some))
  }

  /** Somewhere a bracket encloses plain bytes and at least one complete group. */
  predicate Nested(s: string) {
    s != "" && ((s[0] == '[' && Encloses(s[1..], false)) || Nested(s[1..]))
  }

  lemma {:induction false} PlainEndIs(t: string, n: nat)
    requires n < |t| && NoBracket(t[..n]) && (t[n] == '[' || t[n] == ']')
    ensures PlainEnd(t) == n
  {
    if n > 0 {
      assert t[0] == t[..n][0];
      assert t[1..][..n - 1] == t[..n][1..];
      PlainEndIs(t[1..], n - 1);
    }
  }

  lemma GroupIs(t: string, token: string)
    requires Bracketed(token) && token <= t
    ensures GroupLength(t) == |token|
  {
    var n := |token| - 2;
    assert t[1..][..n] == token[1..n + 1];
    PlainEndIs(t[1..], n);
  }

  lemma {:induction false} EnclosesMore(t: string)
    requires Encloses(t, false)
    ensures Encloses(t, true)
  {
    if t[0] != ']' && t[0] != '[' {
      EnclosesMore(t[1..]);
    }
  }

  lemma {:induction false} EnclosesPlain(p: string, t: string, some: bool)
    requires NoBracket(p)
    ensures Encloses(p + t, some) == Encloses(t, some)
    decreases |p|
  {
    if p == "" {
      assert p + t == t;
    } else {
      EnclosesPlain(p[1..], t, some);
      assert (p + t)[1..] == p[1..] + t && (p + t)[0] == p[0];
    }
  }

  lemma {:induction false} NestedPlain(p: string, t: string)
    requires NoBracket(p)
    ensures Nested(p + t) == Nested(t)
    decreases |p|
  {
    if p == "" {
      assert p + t == t;
    } else {
      NestedPlain(p[1..], t);
      assert (p + t)[1..] == p[1..] + t && (p + t)[0] == p[0];
    }
  }

  lemma {:induction false} NestedSuffix(s: string, i: nat)
    requires i <= |s| && Nested(s[i..])
    ensures Nested(s)
    decreases i
  {
    if i == 0 {
      assert s[0..] == s;
    } else {
      assert s[1..][i - 1..] == s[i..];
      NestedSuffix(s[1..], i - 1);
    }
  }

  lemma NotNestedSuffix(s: string, i: nat)
    requires i <= |s| && !Nested(s)
    ensures !Nested(s[i..])
  {
    hide Nested;
    if Nested(s[i..]) {
      NestedSuffix(s, i);
    }
  }

  // ---------- Replacing a token nests nothing ----------

  /** What a text and its replaced form have at the start. */
  lemma ReplacedStart(t: string, e: Entry)
    requires GoodEntry(e)
    ensures t == "" ==> Replaced(t, e.token, e.value) == ""
    ensures t != "" && e.token <= t ==>
      Replaced(t, e.token, e.value) == e.value + Replaced(t[|e.token|..], e.token, e.value) && GroupLength(t) == |e.token|
    ensures t != "" && !(e.token <= t) ==>
      var r := Replaced(t, e.token, e.value);
      r != "" && r[0] == t[0] && r[1..] == Replaced(t[1..], e.token, e.value)
  {
    hide GroupLength;
    if t != "" && e.token <= t {
      GroupIs(t, e.token);
    } else if t != "" {
      Cons(t[0], Replaced(t[1..], e.token, e.value));
    }
  }

  /** The rest of a name and its bracket that show in the replaced text were there, or a group has gone before them. */
  lemma {:induction false} Through(t: string, e: Entry, w: string)
    requires GoodEntry(e) && NoBracket(w) && w + "]" <= Replaced(t, e.token, e.value)
    ensures Encloses(t, true) && (w + "]" <= t || Encloses(t, false))
    decreases |t|
  {
    hide Replaced, GroupLength;
    ReplacedStart(t, e);
    var r := Replaced(t, e.token, e.value);
    assert (w + "]")[|w|] == ']' == r[|w|];
    if e.token <= t {
      var t', v := t[|e.token|..], e.value;
      assert forall i :: 0 <= i < |v| ==> r[i] == v[i] && v[i] != ']';
      var w' := w[|v|..];
      assert w' + "]" == (w + "]")[|v|..] && r[|v|..] == Replaced(t', e.token, e.value);
      Through(t', e, w');
    } else if w == "" {
      assert r[0] == ']';
      assert t[..1] == "]";
    } else {
      assert w[0] == (w + "]")[0] == r[0];
      assert w[1..] + "]" == (w + "]")[1..];
      Through(t[1..], e, w[1..]);
      if w[1..] + "]" <= t[1..] {
        assert t == [t[0]] + t[1..] && w == [w[0]] + w[1..];
      }
    }
  }

  /** Replacing one token behind an opening bracket does not complete another token there. */
  lemma NoNewToken(s: string, e: Entry, token: string)
    requires GoodEntry(e) && Bracketed(token) && s != "" && s[0] == '[' && !Encloses(s[1..], false)
    requires token <= [s[0]] + Replaced(s[1..], e.token, e.value)
    ensures token <= s
  {
    hide Replaced, Encloses;
    var w := token[1..|token| - 1];
    assert token[1..] == w + "]";
    Cons(s[0], Replaced(s[1..], e.token, e.value));
    Through(s[1..], e, w);
    assert s == [s[0]] + s[1..] && token == [token[0]] + token[1..];
  }

  /** A group that shows in the replaced text was there, or there is nesting. */
  lemma GroupWas(t: string, e: Entry)
    requires GoodEntry(e) && t != "" && t[0] == '[' && !(e.token <= t) && GroupLength(Replaced(t, e.token, e.value)) > 0
    ensures Nested(t) || (var n := GroupLength(Replaced(t, e.token, e.value));
      GroupLength(t) == n && Replaced(t, e.token, e.value)[n..] == Replaced(t[n..], e.token, e.value))
  {
    hide Replaced, GroupLength, Encloses;
    ReplacedStart(t, e);
    var r := Replaced(t, e.token, e.value);
    var g := r[..GroupLength(r)];
    assert g <= [t[0]] + Replaced(t[1..], e.token, e.value);
    if !Encloses(t[1..], false) {
      NoNewToken(t, e, g);
      GroupIs(t, g);
      KeepToken(t, e, g);
      assert r[|g|..] == Replaced(t[|g|..], e.token, e.value);
    }
  }

  lemma {:induction false} EnclosesReplaced(t: string, e: Entry, some: bool)
    requires GoodEntry(e) && Encloses(Replaced(t, e.token, e.value), some)
    ensures Encloses(t, some) || Nested(t)
    decreases |t|
  {
    hide Replaced, GroupLength;
    ReplacedStart(t, e);
    if e.token <= t {
      var t' := t[|e.token|..];
      EnclosesPlain(e.value, Replaced(t', e.token, e.value), some);
      EnclosesReplaced(t', e, some);
      if Nested(t') {
        NestedSuffix(t, |e.token|);
      } else if !some {
        EnclosesMore(t');
      }
    } else if t[0] == '[' {
      GroupWas(t, e);
      if !Nested(t) {
        var n := GroupLength(t);
        EnclosesReplaced(t[n..], e, true);
        if Nested(t[n..]) {
          NestedSuffix(t, n);
        }
      }
    } else if t[0] != ']' {
      EnclosesReplaced(t[1..], e, some);
    }
  }

  /** A pass nests nothing. */
  lemma {:induction false} NestedReplaced(s: string, e: Entry)
    requires GoodEntry(e) && Nested(Replaced(s, e.token, e.value))
    ensures Nested(s)
    decreases |s|
  {
    hide Replaced, GroupLength, Encloses;
    ReplacedStart(s, e);
    if e.token <= s {
      NestedPlain(e.value, Replaced(s[|e.token|..], e.token, e.value));
      NestedReplaced(s[|e.token|..], e);
      NestedSuffix(s, |e.token|);
    } else if Nested(Replaced(s[1..], e.token, e.value)) {
      NestedReplaced(s[1..], e);
    } else {
      EnclosesReplaced(s[1..], e, false);
    }
  }

  // ---------- One after the other is all at once ----------

  /** The token at the start is the one that is replaced. */
  lemma ReplaceHere(s: string, table: seq<Entry>)
    requires GoodTable(table) && table != [] && Tokens(table) && Tokens(table[1..]) && table[0].token <= s && s != ""
    ensures var e := table[0]; var t := s[|e.token|..];
      && Subst(s, table) == e.value + Subst(t, table)
      && Subst(Replaced(s, e.token, e.value), table[1..]) == e.value + Subst(Replaced(t, e.token, e.value), table[1..])
  {
    var e := table[0];
    TailGood(table);
    MatchIs(s, table, 0);
    SubstPlain(e.value, Replaced(s[|e.token|..], e.token, e.value), table[1..]);
  }

  /** Another token stands at the start. */
  lemma ReplaceLater(s: string, table: seq<Entry>, i: nat)
    requires GoodTable(table) && 0 < i < |table| && Tokens(table) && Tokens(table[1..]) && table[i].token <= s
    ensures var e, f := table[0], table[i]; var t := s[|f.token|..];
      && Subst(s, table) == f.value + Subst(t, table)
      && Subst(Replaced(s, e.token, e.value), table[1..]) == f.value + Subst(Replaced(t, e.token, e.value), table[1..])
  {
    var e, f := table[0], table[i];
    var t := s[|f.token|..];
    TailGood(table);
    MatchIs(s, table, i);
    assert table[1..][i - 1] == f && GoodEntry(f) && s == f.token + t;
    KeepToken(s, e, f.token);
    var r := Replaced(s, e.token, e.value);
    assert f.token <= r;
    MatchIs(r, table[1..], i - 1);
    assert r[|f.token|..] == Replaced(t, e.token, e.value);
  }

  /** No token stands at the start, and none does so after the replacement. */
  lemma ReplaceNone(s: string, table: seq<Entry>)
    requires GoodTable(table) && table != [] && Tokens(table) && Tokens(table[1..]) && s != "" && !Nested(s) && Match(s, table) < 0
    ensures var e := table[0];
      && Subst(s, table) == [s[0]] + Subst(s[1..], table)
      && Subst(Replaced(s, e.token, e.value), table[1..]) == [s[0]] + Subst(Replaced(s[1..], e.token, e.value), table[1..])
  {
    var e := table[0];
    TailGood(table);
    var t := Replaced(s[1..], e.token, e.value);
    var r := [s[0]] + t;
    Cons(s[0], t);
    if s[0] != '[' {
      NoMatch(r, table[1..]);
    } else {
      var i := Match(r, table[1..]);
      if i >= 0 {
        assert GoodEntry(table[i + 1]);
        NoNewToken(s, e, table[i + 1].token);
      }
    }
  }

  lemma {:induction false} ReplaceThenSubst(s: string, table: seq<Entry>)
    requires GoodTable(table) && table != [] && Tokens(table) && Tokens(table[1..]) && !Nested(s)
    ensures Subst(Replaced(s, table[0].token, table[0].value), table[1..]) == Subst(s, table)
  {
    hide Subst, Replaced, GoodTable, GoodEntry, Nested;
    if s == "" {
      NothingToDo(table);
    } else {
      var i := Match(s, table);
      if i < 0 {
        ReplaceNone(s, table);
        NotNestedSuffix(s, 1);
        ReplaceThenSubst(s[1..], table);
      } else {
        NotNestedSuffix(s, |table[i].token|);
        if i == 0 {
          ReplaceHere(s, table);
        } else {
          ReplaceLater(s, table, i);
        }
        ReplaceThenSubst(s[|table[i].token|..], table);
      }
    }
  }

  lemma NothingToDo(table: seq<Entry>)
    requires Tokens(table) && table != [] && Tokens(table[1..])
    ensures Subst("", table) == "" && Subst(Replaced("", table[0].token, table[0].value), table[1..]) == ""
  {
  }

  lemma {:induction false} SubstNothing(s: string)
    ensures Subst(s, []) == s
  {
    if s != "" {
      SubstNothing(s[1..]);
    }
  }

  /**
    With tokens in brackets, values without brackets and a text without a bracket around complete groups, replacing the tokens one
    after the other is replacing all of them at once.
   */
  lemma {:induction false} FoldIsSubst(s: string, table: seq<Entry>)
    requires GoodTable(table) && Tokens(table) && !Nested(s)
    ensures Fold(s, table) == Subst(s, table)
    decreases |table|
  {
    hide Subst, Replaced, Nested;
    if table == [] {
      SubstNothing(s);
    } else {
      var e := table[0];
      TailGood(table);
      if Nested(Replaced(s, e.token, e.value)) {
        NestedReplaced(s, e);
      }
      FoldIsSubst(Replaced(s, e.token, e.value), table[1..]);
      ReplaceThenSubst(s, table);
    }
  }

  /** Then the order of the table makes no difference. */
  lemma OrderFree(s: string, a: seq<Entry>, b: seq<Entry>)
    requires GoodTable(a) && GoodTable(b) && Tokens(a) && Tokens(b) && SameEntries(a, b) && !Nested(s)
    ensures Fold(s, a) == Fold(s, b)
  {
    FoldIsSubst(s, a);
    FoldIsSubst(s, b);
    SubstSame(s, a, b);
  }
}
