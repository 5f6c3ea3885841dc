/** The lists of groups and variables of a configuration, and the two-level map that they stand for. */
module ConfigLists {
  import opened Sequences

  datatype Var = Var(name: string, value: string)

  datatype Group = Group(name: string, vars: seq<Var>)

  // ---------- Names ----------

  predicate IsSpace(c: char) {
    c == ' ' || c == '\t'
  }

  function StripLeft(s: string): string {
    if s != "" && IsSpace(s[0]) then StripLeft(s[1..]) else s
  }

  function StripRight(s: string): string {
    if s != "" && IsSpace(s[|s| - 1]) then StripRight(s[..|s| - 1]) else s
  }

  /** `jconfig_strip_spaces` */
  function Strip(s: string): string {
    StripRight(StripLeft(s))
  }

  predicate Stripped(s: string) {
    s == "" || (!IsSpace(s[0]) && !IsSpace(s[|s| - 1]))
  }

  lemma {:induction false} StripRightKeeps(s: string)
    ensures StripRight(s) <= s
    ensures StripRight(s) == "" || !IsSpace(StripRight(s)[|StripRight(s)| - 1])
  {
    if s != "" && IsSpace(s[|s| - 1]) {
      StripRightKeeps(s[..|s| - 1]);
    }
  }

  lemma {:induction false} StripLeftKeeps(s: string)
    ensures StripLeft(s) == "" || !IsSpace(StripLeft(s)[0])
    ensures exists i :: 0 <= i <= |s| && StripLeft(s) == s[i..]
  {
    if s != "" && IsSpace(s[0]) {
      StripLeftKeeps(s[1..]);
      var i :| 0 <= i <= |s[1..]| && StripLeft(s[1..]) == s[1..][i..];
      assert s[1..][i..] == s[i + 1..];
    } else {
      assert s[0..] == s;
    }
  }

  /** A stripped string has no blank at either end, and stripping it again changes nothing. */
  lemma StripStripped(s: string)
    ensures Stripped(Strip(s)) && Strip(Strip(s)) == Strip(s)
    ensures Stripped(s) ==> Strip(s) == s
  {
    StripLeftKeeps(s);
    StripRightKeeps(StripLeft(s));
  }

  // ---------- Searching ----------

  /** The position of the first group of this name, or -1. */
  function FindGroup(gs: seq<Group>, name: string): (r: int)
    ensures -1 <= r < |gs| && (r >= 0 ==> gs[r].name == name)
    ensures forall i :: 0 <= i < (if r < 0 then |gs| else r) ==> gs[i].name != name
  {
    if gs == [] then -1
    else if gs[0].name == name then 0
    else
      var r := FindGroup(gs[1..], name);
      assert forall i :: 1 <= i < |gs| ==> gs[i] == gs[1..][i - 1];
      if r < 0 then -1 else r + 1
  }

  function FindVar(vs: seq<Var>, name: string): (r: int)
    ensures -1 <= r < |vs| && (r >= 0 ==> vs[r].name == name)
    ensures forall i :: 0 <= i < (if r < 0 then |vs| else r) ==> vs[i].name != name
  {
    if vs == [] then -1
    else if vs[0].name == name then 0
    else
      var r := FindVar(vs[1..], name);
      assert forall i :: 1 <= i < |vs| ==> vs[i] == vs[1..][i - 1];
      if r < 0 then -1 else r + 1
  }

  // ---------- The operations, for stripped names ----------

  /** A new group comes first. */
  function AddGroup(gs: seq<Group>, g: string): (r: seq<Group>)
    ensures FindGroup(r, g) >= 0
  {
    if FindGroup(gs, g) >= 0 then gs else [Group(g, [])] + gs
  }

  function RemoveGroup(gs: seq<Group>, g: string): seq<Group> {
    var i := FindGroup(gs, g);
    if i < 0 then gs else Without(gs, i)
  }

  function SetVars(gs: seq<Group>, i: nat, vs: seq<Var>): seq<Group>
    requires i < |gs|
  {
    gs[i := gs[i].(vars := vs)]
  }

  /** A new variable comes first in its group, which is added if need be. */
  function AddVar(gs: seq<Group>, g: string, v: string): (r: seq<Group>)
    ensures FindGroup(r, g) >= 0
  {
    var gs' := AddGroup(gs, g);
    var i := FindGroup(gs', g);
    if FindVar(gs'[i].vars, v) >= 0 then gs' else
    var r := SetVars(gs', i, [Var(v, "")] + gs'[i].vars);
    assert r[i].name == g;
    r
  }

  function RemoveVar(gs: seq<Group>, g: string, v: string): seq<Group> {
    var i := FindGroup(gs, g);
    if i < 0 then gs
    else
      var vs := gs[i].vars;
      var j := FindVar(vs, v);
      if j < 0 then gs else SetVars(gs, i, Without(vs, j))
  }

  function Write(gs: seq<Group>, g: string, v: string, value: string): seq<Group> {
    var gs' := AddVar(gs, g, v);
    var i := FindGroup(gs', g);
    var j := FindVar(gs'[i].vars, v);
    if j < 0 then gs' else SetVars(gs', i, gs'[i].vars[j := Var(v, value)])
  }

  // ---------- The map ----------

  type Settings = map<string, map<string, string>>

  function VarMap(vs: seq<Var>): map<string, string> {
    if vs == [] then map[] else VarMap(vs[1..])[vs[0].name := vs[0].value]
  }

  lemma SetTwice<K, V>(m: map<K, V>, k: K, x: V, y: V)
    ensures m[k := x][k := y] == m[k := y]
  {
  }

  lemma SetRemove<K, V>(m: map<K, V>, k: K, x: V, l: K)
    ensures k != l ==> m[k := x] - {l} == (m - {l})[k := x]
    ensures k == l && k !in m ==> m[k := x] - {l} == m
  {
  }

  /** What the lists say: the first entry of a name counts. */
  function View(gs: seq<Group>): Settings {
    if gs == [] then map[] else View(gs[1..])[gs[0].name := VarMap(gs[0].vars)]
  }

  predicate ValidVars(vs: seq<Var>) {
    && (forall i :: 0 <= i < |vs| ==> Stripped(vs[i].name) && Stripped(vs[i].value))
    && (forall i, j :: 0 <= i < j < |vs| ==> vs[i].name != vs[j].name)
  }

  /** Names are stripped and occur once, at both levels. */
  predicate Valid(gs: seq<Group>) {
    && (forall i :: 0 <= i < |gs| ==> Stripped(gs[i].name) && ValidVars(gs[i].vars))
    && (forall i, j :: 0 <= i < j < |gs| ==> gs[i].name != gs[j].name)
  }

  lemma {:induction false} VarMapAt(vs: seq<Var>, name: string)
    ensures name in VarMap(vs) <==> FindVar(vs, name) >= 0
    ensures name in VarMap(vs) ==> VarMap(vs)[name] == vs[FindVar(vs, name)].value
  {
    if vs != [] {
      VarMapAt(vs[1..], name);
    }
  }

  lemma {:induction false} ViewAt(gs: seq<Group>, name: string)
    ensures name in View(gs) <==> FindGroup(gs, name) >= 0
    ensures name in View(gs) ==> View(gs)[name] == VarMap(gs[FindGroup(gs, name)].vars)
  {
    if gs != [] {
      ViewAt(gs[1..], name);
    }
  }

  // ---------- The operations on the lists are those on the map ----------

  lemma FoundAt(gs: seq<Group>, i: nat)
    requires Valid(gs) && i < |gs|
    ensures FindGroup(gs, gs[i].name) == i
  {
  }

  lemma VarFoundAt(vs: seq<Var>, j: nat)
    requires ValidVars(vs) && j < |vs|
    ensures FindVar(vs, vs[j].name) == j
  {
  }

  /** Changing the variables of one group changes its entry and no other. */
  lemma {:induction false} ViewSetVars(gs: seq<Group>, i: nat, vs: seq<Var>)
    requires i < |gs| && FindGroup(gs, gs[i].name) == i
    ensures View(SetVars(gs, i, vs)) == View(gs)[gs[i].name := VarMap(vs)]
  {
    hide VarMap;
    var gs' := SetVars(gs, i, vs);
    if i == 0 {
      assert gs'[1..] == gs[1..];
    } else {
      assert gs'[1..] == SetVars(gs[1..], i - 1, vs);
      assert FindGroup(gs[1..], gs[i].name) == i - 1;
      ViewSetVars(gs[1..], i - 1, vs);
    }
  }

  lemma SetVarsView(gs: seq<Group>, i: nat, vs: seq<Var>)
    requires Valid(gs) && i < |gs| && ValidVars(vs)
    ensures Valid(SetVars(gs, i, vs)) && View(SetVars(gs, i, vs)) == View(gs)[gs[i].name := VarMap(vs)]
  {
    hide View, VarMap, ValidVars;
    FoundAt(gs, i);
    ViewSetVars(gs, i, vs);
  }

  lemma GroupVars(gs: seq<Group>, i: nat)
    requires Valid(gs) && i < |gs|
    ensures ValidVars(gs[i].vars)
  {
  }

  function Get(m: Settings, g: string): map<string, string> {
    if g in m then m[g] else map[]
  }

  lemma AddGroupView(gs: seq<Group>, g: string)
    requires Valid(gs) && Stripped(g)
    ensures Valid(AddGroup(gs, g))
    ensures View(AddGroup(gs, g)) == View(gs)[g := Get(View(gs), g)]
  {
    hide View, VarMap, ValidVars, Stripped, FindGroup;
    ViewAt(gs, g);
    NewGroup(gs, g);
    if FindGroup(gs, g) >= 0 {
      assert View(gs)[g := View(gs)[g]] == View(gs);
    }
  }

  lemma NewGroup(gs: seq<Group>, g: string)
    ensures View([Group(g, [])] + gs) == View(gs)[g := map[]] && ValidVars([])
  {
    assert ([Group(g, [])] + gs)[1..] == gs;
  }

  lemma NewVar(vs: seq<Var>, v: string)
    requires ValidVars(vs) && Stripped(v) && FindVar(vs, v) < 0
    ensures ValidVars([Var(v, "")] + vs) && VarMap([Var(v, "")] + vs) == VarMap(vs)[v := ""]
  {
    assert ([Var(v, "")] + vs)[1..] == vs;
  }

  lemma AddVarView(gs: seq<Group>, g: string, v: string)
    requires Valid(gs) && Stripped(g) && Stripped(v)
    ensures Valid(AddVar(gs, g, v))
    ensures var m := Get(View(gs), g); View(AddVar(gs, g, v)) == View(gs)[g := if v in m then m else m[v := ""]]
  {
    hide View, VarMap, Valid, ValidVars, FindGroup, FindVar, SetVars, AddGroup, Stripped;
    AddGroupView(gs, g);
    var gs' := AddGroup(gs, g);
    var i := FindGroup(gs', g);
    ViewAt(gs', g);
    GroupVars(gs', i);
    VarMapAt(gs'[i].vars, v);
    if FindVar(gs'[i].vars, v) < 0 {
      NewVar(gs'[i].vars, v);
      SetVarsView(gs', i, [Var(v, "")] + gs'[i].vars);
    }
  }

  /** A write sets the one entry and leaves all others alone. */
  lemma WriteView(gs: seq<Group>, g: string, v: string, value: string)
    requires Valid(gs) && Stripped(g) && Stripped(v) && Stripped(value)
    ensures Valid(Write(gs, g, v, value))
    ensures View(Write(gs, g, v, value)) == View(gs)[g := Get(View(gs), g)[v := value]]
  {
    hide View, VarMap, Valid, ValidVars, FindGroup, FindVar, SetVars, AddVar, Stripped;
    AddVarView(gs, g, v);
    var gs' := AddVar(gs, g, v);
    var i := FindGroup(gs', g);
    ViewAt(gs', g);
    GroupVars(gs', i);
    VarMapAt(gs'[i].vars, v);
    var j := FindVar(gs'[i].vars, v);
    VarMapSet(gs'[i].vars, j, value);
    SetTwice(Get(View(gs), g), v, "", value);
    SetTwice(View(gs), g, View(gs')[g], View(gs')[g][v := value]);
    SetVarsView(gs', i, gs'[i].vars[j := Var(v, value)]);
  }

  lemma VarMapSet(vs: seq<Var>, j: nat, value: string)
    requires ValidVars(vs) && j < |vs| && Stripped(value)
    ensures ValidVars(vs[j := Var(vs[j].name, value)])
    ensures VarMap(vs[j := Var(vs[j].name, value)]) == VarMap(vs)[vs[j].name := value]
  {
    VarFoundAt(vs, j);
    VarMapUpdate(vs, j, value);
  }

  lemma {:induction false} VarMapUpdate(vs: seq<Var>, j: nat, value: string)
    requires j < |vs| && FindVar(vs, vs[j].name) == j
    ensures VarMap(vs[j := Var(vs[j].name, value)]) == VarMap(vs)[vs[j].name := value]
  {
    var vs' := vs[j := Var(vs[j].name, value)];
    if j == 0 {
      assert vs'[1..] == vs[1..];
    } else {
      assert vs'[1..] == vs[1..][j - 1 := Var(vs[j].name, value)];
      VarMapUpdate(vs[1..], j - 1, value);
    }
  }

  // ---------- Removing ----------

  lemma {:induction false} VarMapWithout(vs: seq<Var>, j: nat)
    requires j < |vs| && forall k :: 0 <= k < |vs| && k != j ==> vs[k].name != vs[j].name
    ensures VarMap(Without(vs, j)) == VarMap(vs) - {vs[j].name}
  {
    hide Without;
    WithoutAt(vs, j);
    SetRemove(VarMap(vs[1..]), vs[0].name, vs[0].value, vs[j].name);
    if j == 0 {
      VarMapAt(vs[1..], vs[0].name);
    } else {
      VarMapWithout(vs[1..], j - 1);
    }
  }

  lemma {:induction false} ViewWithout(gs: seq<Group>, i: nat)
    requires i < |gs| && forall k :: 0 <= k < |gs| && k != i ==> gs[k].name != gs[i].name
    ensures View(Without(gs, i)) == View(gs) - {gs[i].name}
  {
    hide Without, VarMap;
    WithoutAt(gs, i);
    SetRemove(View(gs[1..]), gs[0].name, VarMap(gs[0].vars), gs[i].name);
    if i == 0 {
      ViewAt(gs[1..], gs[0].name);
    } else {
      ViewWithout(gs[1..], i - 1);
    }
  }

  /** Removing a group removes exactly its key. */
  lemma RemoveGroupView(gs: seq<Group>, g: string)
    requires Valid(gs)
    ensures Valid(RemoveGroup(gs, g)) && View(RemoveGroup(gs, g)) == View(gs) - {g}
  {
    hide View, ValidVars, FindGroup, Stripped, Without;
    ViewAt(gs, g);
    var i := FindGroup(gs, g);
    if i >= 0 {
      ViewWithout(gs, i);
      WithoutAt(gs, i);
    } else {
      assert View(gs) - {g} == View(gs);
    }
  }

  lemma VarsWithout(vs: seq<Var>, j: nat)
    requires ValidVars(vs) && j < |vs|
    ensures ValidVars(Without(vs, j)) && VarMap(Without(vs, j)) == VarMap(vs) - {vs[j].name}
  {
    hide Without, VarMap;
    WithoutAt(vs, j);
    VarMapWithout(vs, j);
  }

  /** Removing a variable removes exactly its key; a group that is left without variables stays. */
  lemma RemoveVarView(gs: seq<Group>, g: string, v: string)
    requires Valid(gs)
    ensures Valid(RemoveVar(gs, g, v))
    ensures View(RemoveVar(gs, g, v)) == if g in View(gs) then View(gs)[g := View(gs)[g] - {v}] else View(gs)
  {
    hide View, VarMap, Valid, ValidVars, FindGroup, FindVar, SetVars, Without;
    ViewAt(gs, g);
    var i := FindGroup(gs, g);
    if i >= 0 {
      var vs := gs[i].vars;
      GroupVars(gs, i);
      VarMapAt(vs, v);
      var j := FindVar(vs, v);
      if j >= 0 {
        VarsWithout(vs, j);
        SetVarsView(gs, i, Without(vs, j));
      } else {
        assert View(gs)[g] - {v} == View(gs)[g];
        assert View(gs)[g := View(gs)[g]] == View(gs);
      }
    }
  }

  // ---------- Runs ----------

  datatype Op =
    | AddingGroup(group: string)
    | AddingVar(group: string, name: string)
    | Writing(group: string, name: string, value: string)
    | RemovingVar(group: string, name: string)
    | RemovingGroup(group: string)

  /** What an operation does to the lists; every string is stripped first. */
  function Apply(gs: seq<Group>, op: Op): seq<Group> {
    match op
    case AddingGroup(g) => AddGroup(gs, Strip(g))
    case AddingVar(g, v) => AddVar(gs, Strip(g), Strip(v))
    case Writing(g, v, value) => Write(gs, Strip(g), Strip(v), Strip(value))
    case RemovingVar(g, v) => RemoveVar(gs, Strip(g), Strip(v))
    case RemovingGroup(g) => RemoveGroup(gs, Strip(g))
  }

  /** What it does to the map. */
  function ApplyToMap(m: Settings, op: Op): Settings {
    var g := Strip(op.group);
    match op
    case AddingGroup(_) => m[g := Get(m, g)]
    case AddingVar(_, v) => m[g := if Strip(v) in Get(m, g) then Get(m, g) else Get(m, g)[Strip(v) := ""]]
    case Writing(_, v, value) => m[g := Get(m, g)[Strip(v) := Strip(value)]]
    case RemovingVar(_, v) => if g in m then m[g := m[g] - {Strip(v)}] else m
    case RemovingGroup(_) => m - {g}
  }

  lemma ApplyRefines(gs: seq<Group>, op: Op)
    requires Valid(gs)
    ensures Valid(Apply(gs, op)) && View(Apply(gs, op)) == ApplyToMap(View(gs), op)
  {
    hide Strip, Stripped, Valid, View, AddGroup, AddVar, Write, RemoveVar, RemoveGroup, Get;
    StripStripped(op.group);
    match op
    case AddingGroup(g) => AddGroupView(gs, Strip(g));
    case AddingVar(g, v) => StripStripped(v); AddVarView(gs, Strip(g), Strip(v));
    case Writing(g, v, value) => StripStripped(v); StripStripped(value); WriteView(gs, Strip(g), Strip(v), Strip(value));
    case RemovingVar(g, v) => RemoveVarView(gs, Strip(g), Strip(v));
    case RemovingGroup(g) => RemoveGroupView(gs, Strip(g));
  }

  function Run(gs: seq<Group>, ops: seq<Op>): seq<Group>
    decreases |ops|
  {
    if ops == [] then gs else Run(Apply(gs, ops[0]), ops[1..])
  }

  function RunOnMap(m: Settings, ops: seq<Op>): Settings
    decreases |ops|
  {
    if ops == [] then m else RunOnMap(ApplyToMap(m, ops[0]), ops[1..])
  }

  /** Over every run the lists behave as the map, and their names stay stripped and unique. */
  lemma {:induction false} RunRefines(gs: seq<Group>, ops: seq<Op>)
    requires Valid(gs)
    ensures Valid(Run(gs, ops)) && View(Run(gs, ops)) == RunOnMap(View(gs), ops)
    decreases |ops|
  {
    hide Valid, View, Apply, ApplyToMap;
    if ops != [] {
      ApplyRefines(gs, ops[0]);
      RunRefines(Apply(gs, ops[0]), ops[1..]);
    }
  }

  // ---------- The order of the lists ----------

  function Reversed<T>(s: seq<T>): (r: seq<T>)
    ensures |r| == |s| && forall i :: 0 <= i < |s| ==> r[i] == s[|s| - 1 - i]
  {
    seq(|s|, i requires 0 <= i < |s| => s[|s| - 1 - i])
  }

  function WriteAll(gs: seq<Group>, g: string, vs: seq<Var>): seq<Group>
    decreases |vs|
  {
    if vs == [] then gs else Write(WriteAll(gs, g, vs[..|vs| - 1]), g, vs[|vs| - 1].name, vs[|vs| - 1].value)
  }

  /** Variables of different names that are written to a new group stand there in the opposite order. */
  lemma {:induction false} WrittenReversed(gs: seq<Group>, g: string, vs: seq<Var>)
    requires forall i :: 0 <= i < |gs| ==> gs[i].name != g
    requires forall i, j :: 0 <= i < j < |vs| ==> vs[i].name != vs[j].name
    ensures WriteAll(gs, g, vs) == if vs == [] then gs else [Group(g, Reversed(vs))] + gs
    decreases |vs|
  {
    hide Write;
    if vs != [] {
      var init, last := vs[..|vs| - 1], vs[|vs| - 1];
      WrittenReversed(gs, g, init);
      assert [last] + Reversed(init) == Reversed(vs);
      assert forall i :: 0 <= i < |init| ==> init[i].name != last.name;
      if init == [] {
        FirstWritten(gs, g, last);
        assert Reversed(vs) == [last];
      } else {
        NextWritten(gs, g, Reversed(init), last);
      }
    }
  }

  /** What happens to the group that comes first. */
  lemma FirstGroup(gs: seq<Group>, g: string, vs: seq<Var>, ws: seq<Var>)
    ensures FindGroup([Group(g, vs)] + gs, g) == 0 && ([Group(g, vs)] + gs)[0].vars == vs
    ensures SetVars([Group(g, vs)] + gs, 0, ws) == [Group(g, ws)] + gs
  {
  }

  lemma FirstWritten(gs: seq<Group>, g: string, v: Var)
    requires forall i :: 0 <= i < |gs| ==> gs[i].name != g
    ensures Write(gs, g, v.name, v.value) == [Group(g, [v])] + gs
  {
    hide SetVars, FindGroup;
    assert AddGroup(gs, g) == [Group(g, [])] + gs;
    ToFront(gs, g, [], v);
    assert [v] + [] == [v] && ([Group(g, [])] + gs)[1..] == gs;
  }

  lemma NextWritten(gs: seq<Group>, g: string, vs: seq<Var>, v: Var)
    requires forall i :: 0 <= i < |vs| ==> vs[i].name != v.name
    ensures Write([Group(g, vs)] + gs, g, v.name, v.value) == [Group(g, [v] + vs)] + gs
  {
    hide SetVars, FindGroup;
    FirstGroup(gs, g, vs, vs);
    assert AddGroup([Group(g, vs)] + gs, g) == [Group(g, vs)] + gs;
    ToFront([Group(g, vs)] + gs, g, vs, v);
    assert ([Group(g, vs)] + gs)[1..] == gs;
  }

  lemma FirstVar(vs: seq<Var>, v: Var)
    ensures FindVar([Var(v.name, "")] + vs, v.name) == 0
  {
  }

  /** A variable that is new to the first group comes first there. */
  lemma ToFront(gs: seq<Group>, g: string, vs: seq<Var>, v: Var)
    requires exists rest :: AddGroup(gs, g) == [Group(g, vs)] + rest
    requires forall i :: 0 <= i < |vs| ==> vs[i].name != v.name
    ensures Write(gs, g, v.name, v.value) == [Group(g, [v] + vs)] + AddGroup(gs, g)[1..]
  {
    hide SetVars, FindGroup, FindVar, AddGroup;
    var rest :| AddGroup(gs, g) == [Group(g, vs)] + rest;
    var named := [Var(v.name, "")] + vs;
    FirstGroup(rest, g, vs, named);
    FirstGroup(rest, g, named, [v] + vs);
    FirstVar(vs, v);
    assert named[0 := v] == [v] + vs;
    assert AddVar(gs, g, v.name) == [Group(g, named)] + rest;
  }

  function AddAll(gs: seq<Group>, names: seq<string>): seq<Group>
    decreases |names|
  {
    if names == [] then gs else AddGroup(AddAll(gs, names[..|names| - 1]), names[|names| - 1])
  }

  /** And so do groups of different names. */
  lemma {:induction false} GroupsReversed(names: seq<string>)
    requires forall i, j :: 0 <= i < j < |names| ==> names[i] != names[j]
    ensures var gs := AddAll([], names);
      |gs| == |names| && forall i :: 0 <= i < |names| ==> gs[i] == Group(names[|names| - 1 - i], [])
    decreases |names|
  {
    hide FindGroup;
    if names != [] {
      var init, last := names[..|names| - 1], names[|names| - 1];
      GroupsReversed(init);
      assert forall i :: 0 <= i < |init| ==> init[i] == names[i] != last;
      assert FindGroup(AddAll([], init), last) < 0;
    }
  }
}
