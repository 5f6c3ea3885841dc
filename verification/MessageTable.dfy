/** The table of tokens that messages are built with. */
module MessageTable {
  import opened Nesting
  import opened NestingClash
  import opened Options
  import opened Substitution

  /** What a missing string stands for. */
  function ValueOf(with: Option<string>): string {
    if with.Some? then with.value else ""
  }

  /** `replace_def_t`: a token, and where the string that replaces it is found when it is needed. */
  datatype Replacement = Replacement(match': string, replace: Option<string>)

  function Entries(table: seq<Replacement>): (r: seq<Entry>)
    ensures |r| == |table| && forall i :: 0 <= i < |r| ==> r[i] == Entry(table[i].match', ValueOf(table[i].replace))
  {
    seq(|table|, i requires 0 <= i < |table| => Entry(table[i].match', ValueOf(table[i].replace)))
  }

  predicate ValidTable(table: seq<Replacement>) {
    forall i :: 0 <= i < |table| ==> table[i].match' != "" && '\0' !in table[i].match' && '\0' !in ValueOf(table[i].replace)
  }

  lemma EntriesTokens(table: seq<Replacement>, n: nat)
    requires ValidTable(table) && n <= |table|
    ensures Tokens(Entries(table)[..n])
  {
  }

  /** The text after the first `n` passes. */
  ghost function After(s: string, table: seq<Replacement>, n: nat): string
    requires ValidTable(table) && n <= |table|
  {
    EntriesTokens(table, n);
    Fold(s, Entries(table)[..n])
  }

  lemma NextPass(s: string, table: seq<Replacement>, n: nat)
    requires ValidTable(table) && n < |table|
    ensures After(s, table, n + 1) == Replaced(After(s, table, n), table[n].match', ValueOf(table[n].replace))
    ensures After(s, table, 0) == s
  {
    var es := Entries(table);
    EntriesTokens(table, n);
    FoldMore(s, es[..n], es[n]);
    assert es[..n + 1] == es[..n] + [es[n]];
  }

  /** The text after all passes. */
  ghost function Message(s: string, table: seq<Replacement>): string
    requires ValidTable(table)
  {
    After(s, table, |table|)
  }

  lemma MessageIsFold(s: string, table: seq<Replacement>)
    requires ValidTable(table)
    ensures Tokens(Entries(table)) && Message(s, table) == Fold(s, Entries(table))
  {
    EntriesTokens(table, |table|);
    assert Entries(table)[..|table|] == Entries(table);
  }

  // ---------- Order ----------

  /**
    With tokens in brackets, values without brackets and a template in which no bracket encloses complete groups, the
    message is the template with all tokens replaced at once, in whatever order the table lists them.
   */
  lemma MessageIsSubst(s: string, table: seq<Replacement>, other: seq<Replacement>)
    requires ValidTable(table) && ValidTable(other) && !Nested(s) && GoodTable(Entries(table)) && GoodTable(Entries(other))
    requires Tokens(Entries(table)) && SameEntries(Entries(table), Entries(other))
    ensures Message(s, table) == Subst(s, Entries(table)) == Message(s, other)
  {
    hide Subst, Fold, Nested, GoodTable, Message;
    MessageIsFold(s, table);
    MessageIsFold(s, other);
    FoldIsSubst(s, Entries(table));
    OrderFree(s, Entries(table), Entries(other));
  }

  function Replacements(entries: seq<Entry>): (r: seq<Replacement>)
    ensures |r| == |entries| && forall i :: 0 <= i < |r| ==> r[i] == Replacement(entries[i].token, Some(entries[i].value))
  {
    seq(|entries|, i requires 0 <= i < |entries| => Replacement(entries[i].token, Some(entries[i].value)))
  }

  lemma ReplacementsValid(entries: seq<Entry>)
    requires Tokens(entries) && NulFree(entries)
    ensures ValidTable(Replacements(entries)) && Entries(Replacements(entries)) == entries
  {
  }

  /** Two tables that list the same tokens and values, with values that hold no brackets. */
  predicate Reordered(a: seq<Replacement>, b: seq<Replacement>) {
    && ValidTable(a) && ValidTable(b) && GoodTable(Entries(a)) && GoodTable(Entries(b))
    && SameEntries(Entries(a), Entries(b))
  }

  /** However a table is reordered, the message is the same. */
  ghost predicate SameMessage(s: string) {
    forall a, b :: Reordered(a, b) ==> Message(s, a) == Message(s, b)
  }

  /** Exactly when the order in which a table lists its tokens makes no difference to any message from a template. */
  lemma SameMessageIff(s: string)
    requires '\0' !in s
    ensures SameMessage(s) <==> !Nested(s)
  {
    hide Subst, Fold, Nested, GoodTable, Message, ValidTable, SameEntries, Entries;
    if Nested(s) {
      var a, b := Clash(s);
      ReplacementsValid(a);
      ReplacementsValid(b);
      MessageIsFold(s, Replacements(a));
      MessageIsFold(s, Replacements(b));
      assert Reordered(Replacements(a), Replacements(b));
    } else {
      forall a, b | Reordered(a, b)
        ensures Message(s, a) == Message(s, b)
      {
        MessageIsFold(s, a);
        MessageIsSubst(s, a, b);
      }
    }
  }

  // ---------- The table of the program ----------

  datatype Values = Values(color: Option<string>, server: Option<string>, dept: Option<string>, alarm: Option<string>,
                           level: Option<string>, audio1: Option<string>, audio2: Option<string>, audio3: Option<string>)

  /** `replacements` */
  function FixedTable(v: Values): seq<Replacement> {
    [Replacement("[COLOR]", v.color), Replacement("[SERVER]", v.server), Replacement("[DEPT]", v.dept),
     Replacement("[ALARM]", v.alarm), Replacement("[LEVEL]", v.level), Replacement("[AUDIO1]", v.audio1),
     Replacement("[AUDIO2]", v.audio2), Replacement("[AUDIO3]", v.audio3)]
  }

  predicate PlainValue(v: Option<string>) {
    NoBracket(ValueOf(v)) && '\0' !in ValueOf(v)
  }

  predicate PlainValues(v: Values) {
    PlainValue(v.color) && PlainValue(v.server) && PlainValue(v.dept) && PlainValue(v.alarm) && PlainValue(v.level) &&
    PlainValue(v.audio1) && PlainValue(v.audio2) && PlainValue(v.audio3)
  }

  lemma FixedTokens()
    ensures Bracketed("[COLOR]") && Bracketed("[SERVER]") && Bracketed("[DEPT]") && Bracketed("[ALARM]")
    ensures Bracketed("[LEVEL]") && Bracketed("[AUDIO1]") && Bracketed("[AUDIO2]") && Bracketed("[AUDIO3]")
  {
  }

  lemma FixedNames()
    ensures '\0' !in "[COLOR]" && '\0' !in "[SERVER]" && '\0' !in "[DEPT]" && '\0' !in "[ALARM]"
    ensures '\0' !in "[LEVEL]" && '\0' !in "[AUDIO1]" && '\0' !in "[AUDIO2]" && '\0' !in "[AUDIO3]"
  {
  }

  /** The program's table is good whenever the values hold no brackets. */
  lemma FixedTableGood(v: Values)
    requires PlainValues(v)
    ensures ValidTable(FixedTable(v)) && GoodTable(Entries(FixedTable(v))) && Tokens(Entries(FixedTable(v)))
  {
    hide Bracketed, NoBracket;
    FixedTokens();
    FixedValid(v);
    FixedDistinct(v);
    EntriesTokens(FixedTable(v), 8);
    var es := Entries(FixedTable(v));
    assert es[..8] == es;
    forall i | 0 <= i < |es|
      ensures GoodEntry(es[i])
    {
      GoodAt(v, i);
    }
  }

  lemma GoodAt(v: Values, i: nat)
    requires PlainValues(v) && i < 8
    ensures GoodEntry(Entries(FixedTable(v))[i])
  {
    FixedTokens();
    hide Bracketed, NoBracket;
  }

  lemma FixedValid(v: Values)
    requires PlainValues(v)
    ensures ValidTable(FixedTable(v))
  {
    FixedNames();
    hide NoBracket;
  }

  lemma FixedDistinct(v: Values)
    ensures var es := FixedTable(v); forall i, j :: 0 <= i < j < 8 ==> es[i].match' != es[j].match'
  {
    assert "[AUDIO1]"[6] == '1' && "[AUDIO2]"[6] == '2' && "[AUDIO3]"[6] == '3';
    assert |"[COLOR]"| == 7 && "[COLOR]"[1] == 'C' && "[ALARM]"[1] == 'A' && "[LEVEL]"[1] == 'L';
    assert |"[SERVER]"| == 8 && "[SERVER]"[1] == 'S' && |"[DEPT]"| == 6;
  }

  // ---------- A nested template ----------

  /** Only the department is replaced in this template. */
  lemma OuterKept(e: Entry)
    requires GoodEntry(e) && e.token != "[DEPT]"
    ensures Replaced("[[DEPT]RM]", e.token, e.value) == "[[DEPT]RM]"
  {
    hide Replaced;
    FixedTokens();
    var rest := "[DEPT]RM]";
    if e.token <= "[[DEPT]RM]" {
      BracketedInside(e.token, 1);
      assert false;
    }
    Step("[[DEPT]RM]", '[', rest, e.token, e.value);
    KeepToken(rest, e, "[DEPT]");
    assert rest[|"[DEPT]"|..] == "RM]" + "";
    ReplacedPlain("RM]", "", e);
    ReplacedStart("", e);
  }

  lemma DepartmentReplaced()
    ensures Replaced("[[DEPT]RM]", "[DEPT]", "ALA") == "[ALARM]"
  {
    hide Replaced;
    FixedTokens();
    var e := Entry("[DEPT]", "ALA");
    assert !("[DEPT]" <= "[[DEPT]RM]") by {
      assert "[DEPT]"[1] != "[[DEPT]RM]"[1];
    }
    Step("[[DEPT]RM]", '[', "[DEPT]RM]", "[DEPT]", "ALA");
    Hit("[DEPT]RM]", "RM]", "[DEPT]", "ALA");
    ReplacedPlain("RM]", "", e);
    NothingReplaced("[DEPT]", "ALA");
    assert "RM]" + "" == "RM]" && "[" + ("ALA" + "RM]") == "[ALARM]";
  }

  lemma AlarmReplaced(alarm: string)
    ensures Replaced("[ALARM]", "[ALARM]", alarm) == alarm
  {
    hide Replaced;
    FixedTokens();
    Hit("[ALARM]", "", "[ALARM]", alarm);
    ReplacedStart("", Entry("[ALARM]", ""));
    NothingReplaced("[ALARM]", alarm);
  }

  lemma PlainKept(s: string, e: Entry)
    requires GoodEntry(e) && NoBracket(s)
    ensures Replaced(s, e.token, e.value) == s
  {
    ReplacedPlain(s, "", e);
    assert s + "" == s;
  }

  /** A pass that changes nothing. */
  lemma KeptPass(s: string, table: seq<Replacement>, n: nat)
    requires ValidTable(table) && n < |table|
    requires Replaced(After(s, table, n), table[n].match', ValueOf(table[n].replace)) == After(s, table, n)
    ensures After(s, table, n + 1) == After(s, table, n)
  {
    hide After, Replaced;
    NextPass(s, table, n);
  }

  /** The passes before the department change nothing, it completes the alarm's token, and that is replaced then. */
  lemma NestedFolds(v: Values)
    requires PlainValues(v) && v.dept == Some("ALA") && ValidTable(FixedTable(v))
    ensures Message("[[DEPT]RM]", FixedTable(v)) == ValueOf(v.alarm)
  {
    hide After, Replaced, Bracketed, NoBracket;
    var s, t, alarm := "[[DEPT]RM]", FixedTable(v), ValueOf(v.alarm);
    FixedTokens();
    NextPass(s, t, 0);
    OuterKept(Entry("[COLOR]", ValueOf(v.color)));
    KeptPass(s, t, 0);
    OuterKept(Entry("[SERVER]", ValueOf(v.server)));
    KeptPass(s, t, 1);
    DepartmentReplaced();
    NextPass(s, t, 2);
    AlarmReplaced(alarm);
    NextPass(s, t, 3);
    PlainKept(alarm, Entry("[LEVEL]", ValueOf(v.level)));
    KeptPass(s, t, 4);
    PlainKept(alarm, Entry("[AUDIO1]", ValueOf(v.audio1)));
    KeptPass(s, t, 5);
    PlainKept(alarm, Entry("[AUDIO2]", ValueOf(v.audio2)));
    KeptPass(s, t, 6);
    PlainKept(alarm, Entry("[AUDIO3]", ValueOf(v.audio3)));
    KeptPass(s, t, 7);
  }

  lemma NestedAtOnce(v: Values)
    requires PlainValues(v) && v.dept == Some("ALA")
    ensures Tokens(Entries(FixedTable(v))) && Subst("[[DEPT]RM]", Entries(FixedTable(v))) == "[ALARM]"
  {
    hide Subst, Bracketed, NoBracket;
    FixedTableGood(v);
    var es, rest := Entries(FixedTable(v)), "[DEPT]RM]";
    NoTokenNested(v);
    assert "[[DEPT]RM]"[1..] == rest;
    SubstStep("[[DEPT]RM]", es);
    assert "[DEPT]" <= rest && rest[|"[DEPT]"|..] == "RM]" && es[2] == Entry("[DEPT]", "ALA");
    MatchIs(rest, es, 2);
    SubstStep(rest, es);
    SubstPlain("RM]", "", es);
    SubstStep("", es);
    assert "RM]" + "" == "RM]" && "[" + ("ALA" + "RM]") == "[ALARM]";
  }

  lemma NoTokenNested(v: Values)
    ensures Match("[[DEPT]RM]", Entries(FixedTable(v))) < 0
  {
    var s, es := "[[DEPT]RM]", Entries(FixedTable(v));
    assert s[1] == '[';
    forall i | 0 <= i < 8
      ensures !(es[i].token <= s)
    {
      assert es[i].token[1] != s[1];
    }
  }

  lemma SubstStep(s: string, table: seq<Entry>)
    requires Tokens(table)
    ensures s == "" ==> Subst(s, table) == ""
    ensures s != "" && Match(s, table) < 0 ==> Subst(s, table) == [s[0]] + Subst(s[1..], table)
    ensures s != "" && Match(s, table) >= 0 ==>
      var e := table[Match(s, table)]; Subst(s, table) == e.value + Subst(s[|e.token|..], table)
  {
  }

  /**
    With the program's own table and a department named `ALA`, this template gives the number of the alarm, where
    replacing all tokens at once gives the token of the alarm.
   */
  lemma NestedTemplate(v: Values)
    requires PlainValues(v) && v.dept == Some("ALA")
    ensures ValidTable(FixedTable(v)) && Tokens(Entries(FixedTable(v))) && Nested("[[DEPT]RM]")
    ensures Message("[[DEPT]RM]", FixedTable(v)) == ValueOf(v.alarm)
    ensures Subst("[[DEPT]RM]", Entries(FixedTable(v))) == "[ALARM]"
  {
    hide Message, Subst, Nested;
    FixedTableGood(v);
    NestedFolds(v);
    NestedAtOnce(v);
    TemplateNested();
  }

  lemma TemplateNested()
    ensures Nested("[[DEPT]RM]")
  {
    hide GroupLength;
    FixedTokens();
    GroupIs("[DEPT]RM]", "[DEPT]");
    assert "[[DEPT]RM]"[1..] == "[DEPT]RM]" && "[DEPT]RM]"[6..] == "RM]" && "RM]"[1..] == "M]" && "M]"[1..] == "]";
    assert Encloses("]", true);
    assert Encloses("M]", true);
    assert Encloses("RM]", true);
    assert Encloses("[DEPT]RM]", false);
  }

  // ---------- What each token stands for ----------

  /** A text with one token between plain bytes is not nested. */
  lemma OneGroup(p: string, token: string, q: string)
    requires NoBracket(p) && Bracketed(token) && NoBracket(q)
    ensures !Nested(p + (token + q))
  {
    hide Nested, Encloses;
    var inner := token[1..|token| - 1];
    NestedPlain(p, token + q);
    assert token + q == "[" + (inner + ("]" + q)) && (token + q)[1..] == inner + ("]" + q);
    EnclosesPlain(inner, "]" + q, false);
    NestedPlain(inner, "]" + q);
    assert "]" + q == "]" + (q + "") && ("]" + q)[1..] == q && q + "" == q;
    NestedPlain(q, "");
    GroupEnds(token + q, q);
  }

  lemma GroupEnds(t: string, q: string)
    requires t != "" && t[0] == '['
    ensures ("]" + q)[1..] == q && !Encloses("]" + q, false) && (Nested("]" + q) <==> Nested(q)) && !Nested("")
    ensures Nested(t) <==> Encloses(t[1..], false) || Nested(t[1..])
  {
    assert ("]" + q)[1..] == q;
  }

  lemma OneSubst(p: string, q: string, table: seq<Entry>, i: nat)
    requires NoBracket(p) && NoBracket(q) && GoodTable(table) && Tokens(table) && i < |table|
    ensures Subst(p + (table[i].token + q), table) == p + (table[i].value + q)
  {
    hide Subst, GoodTable, Match;
    var e := table[i];
    SubstPlain(p, e.token + q, table);
    MatchIs(e.token + q, table, i);
    SubstStep(e.token + q, table);
    assert (e.token + q)[|e.token|..] == q;
    SubstPlain(q, "", table);
    SubstStep("", table);
    assert q + "" == q;
  }

  lemma TokenGives(v: Values, i: nat, p: string, q: string)
    requires PlainValues(v) && i < 8 && NoBracket(p) && NoBracket(q)
    ensures var e := FixedTable(v)[i];
      ValidTable(FixedTable(v)) && Message(p + (e.match' + q), FixedTable(v)) == p + (ValueOf(e.replace) + q)
  {
    hide Subst, Message, Bracketed, NoBracket, Nested;
    var t := FixedTable(v);
    FixedTableGood(v);
    GoodAt(v, i);
    OneGroup(p, t[i].match', q);
    MessageIsFold(p + (t[i].match' + q), t);
    FoldIsSubst(p + (t[i].match' + q), Entries(t));
    OneSubst(p, q, Entries(t), i);
  }

  /** Between plain bytes each token of the program's table gives its string, or nothing if there is none. */
  lemma EachToken(v: Values, p: string, q: string)
    requires PlainValues(v) && NoBracket(p) && NoBracket(q)
    ensures ValidTable(FixedTable(v))
    ensures Message(p + ("[COLOR]" + q), FixedTable(v)) == p + (ValueOf(v.color) + q)
    ensures Message(p + ("[SERVER]" + q), FixedTable(v)) == p + (ValueOf(v.server) + q)
    ensures Message(p + ("[DEPT]" + q), FixedTable(v)) == p + (ValueOf(v.dept) + q)
    ensures Message(p + ("[ALARM]" + q), FixedTable(v)) == p + (ValueOf(v.alarm) + q)
    ensures Message(p + ("[LEVEL]" + q), FixedTable(v)) == p + (ValueOf(v.level) + q)
    ensures Message(p + ("[AUDIO1]" + q), FixedTable(v)) == p + (ValueOf(v.audio1) + q)
    ensures Message(p + ("[AUDIO2]" + q), FixedTable(v)) == p + (ValueOf(v.audio2) + q)
    ensures Message(p + ("[AUDIO3]" + q), FixedTable(v)) == p + (ValueOf(v.audio3) + q)
    ensures ValueOf(None) == "" && forall s :: ValueOf(Some(s)) == s
  {
    hide Message, NoBracket, ValidTable;
    TokenGives(v, 0, p, q);
    TokenGives(v, 1, p, q);
    TokenGives(v, 2, p, q);
    TokenGives(v, 3, p, q);
    TokenGives(v, 4, p, q);
    TokenGives(v, 5, p, q);
    TokenGives(v, 6, p, q);
    TokenGives(v, 7, p, q);
  }
}
