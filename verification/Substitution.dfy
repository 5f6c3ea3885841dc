/** Replacing tokens: one after the other, and all at once. */
module Substitution {

  /** Leftmost, non-overlapping replacement. */
  function Replaced(s: string, rep: string, with: string): string
    requires rep != ""
  {
    if s == "" then ""
    else if rep <= s then with + Replaced(s[|rep|..], rep, with)
    else [s[0]] + Replaced(s[1..], rep, with)
  }

  datatype Entry = Entry(token: string, value: string)

  predicate Tokens(table: seq<Entry>) {
    forall i :: 0 <= i < |table| ==> table[i].token != ""
  }

  /** The entries are applied one after the other. */
  function Fold(s: string, table: seq<Entry>): string
    requires Tokens(table)
    decreases |table|
  {
    if table == [] then s else Fold(Replaced(s, table[0].token, table[0].value), table[1..])
  }

  lemma {:induction false} FoldMore(s: string, table: seq<Entry>, e: Entry)
    requires Tokens(table) && e.token != ""
    ensures Tokens(table + [e]) && Fold(s, table + [e]) == Replaced(Fold(s, table), e.token, e.value)
    decreases |table|
  {
    if table == [] {
      assert table + [e] == [e];
    } else {
      FoldMore(Replaced(s, table[0].token, table[0].value), table[1..], e);
      assert (table + [e])[1..] == table[1..] + [e];
    }
  }

  // ---------- All at once ----------

  /** The first entry whose token stands at the start of the text, or -1. */
  function Match(s: string, table: seq<Entry>): (r: int)
    ensures -1 <= r < |table| && (r >= 0 ==> table[r].token <= s)
    ensures forall i :: 0 <= i < (if r < 0 then |table| else r) ==> !(table[i].token <= s)
    decreases |table|
  {
    if table == [] then -1
    else if table[0].token <= s then 0
    else
      var r := Match(s, table[1..]);
      assert forall i :: 1 <= i < |table| ==> table[i] == table[1..][i - 1];
      if r < 0 then -1 else r + 1
  }

  /** One pass over the text; what a token has been replaced with is not looked at again. */
  function Subst(s: string, table: seq<Entry>): string
    requires Tokens(table)
  {
    if s == "" then ""
    else
      var i := Match(s, table);
      if i < 0 then [s[0]] + Subst(s[1..], table) else table[i].value + Subst(s[|table[i].token|..], table)
  }

  lemma Step(s: string, c: char, rest: string, rep: string, with: string)
    requires s == [c] + rest && rep != "" && !(rep <= s)
    ensures Replaced(s, rep, with) == [c] + Replaced(rest, rep, with)
  {
    assert s[1..] == rest;
  }

  lemma Hit(s: string, rest: string, rep: string, with: string)
    requires s == rep + rest && rep != ""
    ensures Replaced(s, rep, with) == with + Replaced(rest, rep, with)
  {
    assert s[|rep|..] == rest;
  }

  lemma {:induction false} ReplacedNoNul(s: string, rep: string, with: string)
    requires rep != "" && '\0' !in s && '\0' !in with
    ensures '\0' !in Replaced(s, rep, with)
  {
    if s != "" {
      ReplacedNoNul(if rep <= s then s[|rep|..] else s[1..], rep, with);
    }
  }

  lemma NothingReplaced(rep: string, with: string)
    requires rep != ""
    ensures Replaced("", rep, with) == ""
  {
  }

  // ---------- Brackets ----------

  predicate NoBracket(s: string) {
    forall i :: 0 <= i < |s| ==> s[i] != '[' && s[i] != ']'
  }

  predicate Bracketed(t: string) {
    |t| >= 2 && t[0] == '[' && t[|t| - 1] == ']' && NoBracket(t[1..|t| - 1])
  }

  predicate GoodEntry(e: Entry) {
    Bracketed(e.token) && NoBracket(e.value)
  }

  /** Tokens are in brackets and pairwise different; values hold no brackets. */
  predicate GoodTable(table: seq<Entry>) {
    && (forall i :: 0 <= i < |table| ==> GoodEntry(table[i]))
    && (forall i, j :: 0 <= i < j < |table| ==> table[i].token != table[j].token)
  }

  lemma BracketedInside(t: string, i: nat)
    requires Bracketed(t) && 0 < i < |t|
    ensures t[i] != '[' && (t[i] == ']' <==> i == |t| - 1)
  {
    if i < |t| - 1 {
      assert t[1..|t| - 1][i - 1] == t[i];
    }
  }

  /** At most one token stands at the start of a text. */
  lemma OneToken(s: string, a: string, b: string)
    requires Bracketed(a) && Bracketed(b) && a <= s && b <= s
    ensures a == b
  {
    if |a| < |b| {
      BracketedInside(b, |a| - 1);
    } else if |b| < |a| {
      BracketedInside(a, |b| - 1);
    }
  }

  /** Text without an opening bracket is left alone. */
  lemma {:induction false} ReplacedPlain(p: string, t: string, e: Entry)
    requires GoodEntry(e) && forall i :: 0 <= i < |p| ==> p[i] != '['
    ensures Replaced(p + t, e.token, e.value) == p + Replaced(t, e.token, e.value)
    decreases |p|
  {
    if p == "" {
      assert p + t == t;
    } else {
      ReplacedPlain(p[1..], t, e);
      assert (p + t)[1..] == p[1..] + t && (p + t)[0] == p[0];
      assert [p[0]] + (p[1..] + Replaced(t, e.token, e.value)) == p + Replaced(t, e.token, e.value);
    }
  }

  lemma NoMatch(s: string, table: seq<Entry>)
    requires GoodTable(table) && s != "" && s[0] != '['
    ensures Match(s, table) < 0
  {
    assert forall i :: 0 <= i < |table| ==> GoodEntry(table[i]);
  }

  lemma SubstByte(s: string, table: seq<Entry>)
    requires Tokens(table) && s != "" && Match(s, table) < 0
    ensures Subst(s, table) == [s[0]] + Subst(s[1..], table)
  {
  }

  lemma {:induction false} SubstPlain(p: string, t: string, table: seq<Entry>)
    requires GoodTable(table) && Tokens(table) && forall i :: 0 <= i < |p| ==> p[i] != '['
    ensures Subst(p + t, table) == p + Subst(t, table)
    decreases |p|
  {
    if p == "" {
      assert p + t == t;
    } else {
      hide GoodTable, Match, Subst;
      SubstPlain(p[1..], t, table);
      assert (p + t)[1..] == p[1..] + t && (p + t)[0] == p[0];
      NoMatch(p + t, table);
      SubstByte(p + t, table);
      assert [p[0]] + (p[1..] + Subst(t, table)) == p + Subst(t, table);
    }
  }

  // ---------- Tables ----------

  lemma TailGood(table: seq<Entry>)
    requires GoodTable(table) && table != []
    ensures GoodTable(table[1..]) && Tokens(table) && Tokens(table[1..]) && GoodEntry(table[0])
    ensures forall i :: 1 <= i < |table| ==> table[i].token != table[0].token
  {
  }

  /** The token at the start of a text is found in a good table wherever it stands. */
  lemma MatchIs(s: string, table: seq<Entry>, i: nat)
    requires GoodTable(table) && i < |table| && table[i].token <= s
    ensures Match(s, table) == i
  {
    var j := Match(s, table);
    assert GoodEntry(table[i]) && GoodEntry(table[j]);
    OneToken(s, table[i].token, table[j].token);
  }

  lemma Cons(c: char, a: string)
    ensures ([c] + a)[1..] == a && ([c] + a)[0] == c && [c] + a != ""
  {
  }

  /** A token that stands at the start stays there when another one is replaced. */
  lemma KeepToken(s: string, e: Entry, token: string)
    requires GoodEntry(e) && Bracketed(token) && token <= s && token != e.token
    ensures Replaced(s, e.token, e.value) == token + Replaced(s[|token|..], e.token, e.value)
  {
    hide Replaced;
    var t := s[|token|..];
    if e.token <= s {
      OneToken(s, e.token, token);
    }
    assert s == [s[0]] + s[1..];
    Step(s, s[0], s[1..], e.token, e.value);
    forall i | 0 <= i < |token[1..]|
      ensures token[1..][i] != '['
    {
      BracketedInside(token, i + 1);
    }
    assert s[1..] == token[1..] + t;
    ReplacedPlain(token[1..], t, e);
    assert [s[0]] + (token[1..] + Replaced(t, e.token, e.value)) == token + Replaced(t, e.token, e.value);
  }

  // ---------- Order ----------

  /** The two tables have the same entries. */
  predicate SameEntries(a: seq<Entry>, b: seq<Entry>) {
    (forall e :: e in a ==> e in b) && (forall e :: e in b ==> e in a)
  }

  lemma MatchIn(s: string, a: seq<Entry>, b: seq<Entry>)
    requires GoodTable(a) && GoodTable(b) && SameEntries(a, b)
    ensures Match(s, a) >= 0 ==> Match(s, b) >= 0 && a[Match(s, a)] == b[Match(s, b)]
  {
    var i := Match(s, a);
    if i >= 0 {
      assert a[i] in b;
      var k :| 0 <= k < |b| && b[k] == a[i];
      MatchIs(s, b, k);
    }
  }

  lemma MatchSame(s: string, a: seq<Entry>, b: seq<Entry>)
    requires GoodTable(a) && GoodTable(b) && SameEntries(a, b)
    ensures Match(s, a) < 0 <==> Match(s, b) < 0
    ensures Match(s, a) >= 0 ==> a[Match(s, a)] == b[Match(s, b)]
  {
    MatchIn(s, a, b);
    MatchIn(s, b, a);
  }

  lemma {:induction false} SubstSame(s: string, a: seq<Entry>, b: seq<Entry>)
    requires GoodTable(a) && GoodTable(b) && Tokens(a) && Tokens(b) && SameEntries(a, b)
    ensures Subst(s, a) == Subst(s, b)
  {
    hide GoodTable, SameEntries;
    if s != "" {
      MatchSame(s, a, b);
      var i := Match(s, a);
      if i < 0 {
        SubstSame(s[1..], a, b);
      } else {
        SubstSame(s[|a[i].token|..], a, b);
      }
    }
  }
}
