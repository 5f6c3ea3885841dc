/** A configuration in memory. */
module Config {
  import opened ConfigFile
  import opened ConfigLists
  import opened Options
  import opened Sequences

  /** `jconfig_strip_spaces` */
  method StripSpaces(s: string) returns (result: string)
    ensures result == Strip(s)
  {
    var p := 0;
    assert s[0..] == s;
    while p < |s| && (s[p] == ' ' || s[p] == '\t')
      invariant p <= |s| && StripLeft(s[p..]) == StripLeft(s)
    {
      assert s[p..][1..] == s[p + 1..];
      p := p + 1;
    }
    result := s[p..];
    while result != "" && (result[|result| - 1] == ' ' || result[|result| - 1] == '\t')
      invariant StripRight(result) == Strip(s)
      decreases |result|
    {
      result := result[..|result| - 1];
    }
  }

  /** `JConfig`; the two linked lists are sequences. */
  class JConfig {
    var groups: seq<Group>

    constructor ()
      ensures groups == []
    {
      groups := [];
    }

    /** `jconfig_open`, on a file with this text if there is one; `garbage` is what the line buffer holds at first. */
    constructor Open(file: Option<string>, garbage: string)
      ensures groups == if file.Some? then ConfigFile.Open(file.value, garbage) else []
    {
      groups := [];
      new;
      if file.Some? {
        ReadFile(file.value, garbage);
      }
    }

    method ReadFile(text: string, garbage: string)
      requires groups == []
      modifies this
      ensures groups == ConfigFile.Open(text, garbage)
    {
      var rest, group, buffer, eof := text, "", garbage, false;
      while !eof
        invariant if eof then groups == ConfigFile.Open(text, garbage)
          else ReadFrom(rest, buffer, Reader(groups, group)).groups == ConfigFile.Open(text, garbage)
        decreases !eof, |rest|
      {
        var n;
        ghost var r := Reader(groups, group);
        RoundOf(rest, buffer, r);
        n, eof := FGets(rest);
        if rest != "" {
          buffer := UpTo(rest[..n], '\0');
        }
        rest := rest[n..];
        buffer := CleanBuffer(buffer);
        var line := StripSpaces(buffer);
        group := Process(line, group);
      }
    }

    /** What a stripped line does; the group that variables are added to may change. */
    method Process(line: string, group: string) returns (group': string)
      modifies this
      ensures Reader(groups, group') == ReadLine(Reader(old(groups), group), line)
    {
      hide Strip, ConfigLists.AddGroup, Write;
      group' := group;
      if line != "" && line[0] == '[' {
        if line[|line| - 1] == ']' {
          group' := line[1..|line| - 1];
          AddGroup(group');
        }
        return;
      }
      var name := UpTo(line, '=');
      if |name| < |line| {
        StripStripped(name);
        StripStripped(line[|name| + 1..]);
        var var' := StripSpaces(name);
        var value := StripSpaces(line[|name| + 1..]);
        WriteString(group, var', Some(value));
      }
    }

    /** `jconfig_save`: the text of the file. */
    method Save() returns (text: string)
      ensures text == Text(Lines(groups))
    {
      hide Text, GroupLines, VarLines;
      StripStripped("");
      text := "";
      var i := FindGroup("");
      ghost var start := Text(VarLines(GlobalVars(groups)));
      NoText();
      if i >= 0 {
        text := SaveVars(text, groups[i].vars);
      }
      assert text == start;
      var k := 0;
      assert groups[0..] == groups;
      while k < |groups|
        invariant 0 <= k <= |groups|
        invariant text + Text(GroupLines(groups[k..])) == start + Text(GroupLines(groups))
      {
        GroupText(groups[k..]);
        assert groups[k..][1..] == groups[k + 1..];
        if |groups[k].name| != 0 {
          ghost var before := text;
          text := text + ("\n[" + groups[k].name + "]\n");
          text := SaveVars(text, groups[k].vars);
          Group3(before, "\n[" + groups[k].name + "]\n", Text(VarLines(groups[k].vars)), Text(GroupLines(groups[k + 1..])));
        }
        k := k + 1;
      }
      assert groups[|groups|..] == [];
      assert text + "" == text;
      TextAppend(VarLines(GlobalVars(groups)), GroupLines(groups));
    }

    /** `jconfig_find_group`: the position of the group, or -1. */
    method FindGroup(name: string) returns (r: int)
      ensures r == ConfigLists.FindGroup(groups, Strip(name))
    {
      var stripped := StripSpaces(name);
      r := 0;
      while r < |groups|
        invariant 0 <= r <= |groups| && forall i :: 0 <= i < r ==> groups[i].name != stripped
      {
        if stripped == groups[r].name || (|stripped| == 0 && |groups[r].name| == 0) {
          return;
        }
        r := r + 1;
      }
      r := -1;
    }

    /** `jconfig_has_group` */
    method HasGroup(name: string) returns (r: bool)
      ensures r == (Strip(name) in View(groups))
    {
      ViewAt(groups, Strip(name));
      var i := FindGroup(name);
      r := i >= 0;
    }

    /** `jconfig_find_var`: the positions of the group and the variable, or -1. */
    method FindVar(group: string, name: string) returns (i: int, j: int)
      ensures i == ConfigLists.FindGroup(groups, Strip(group))
      ensures j == if i < 0 then -1 else ConfigLists.FindVar(groups[i].vars, Strip(name))
    {
      j := -1;
      i := FindGroup(group);
      if i < 0 {
        return;
      }
      var stripped := StripSpaces(name);
      j := 0;
      var vars := groups[i].vars;
      while j < |vars|
        invariant 0 <= j <= |vars| && forall k :: 0 <= k < j ==> vars[k].name != stripped
      {
        if stripped == vars[j].name {
          return;
        }
        j := j + 1;
      }
      j := -1;
    }

    /** `jconfig_has_var` */
    method HasVar(group: string, name: string) returns (r: bool)
      ensures r == (Strip(group) in View(groups) && Strip(name) in View(groups)[Strip(group)])
    {
      ViewAt(groups, Strip(group));
      var i, j := FindVar(group, name);
      if i >= 0 {
        VarMapAt(groups[i].vars, Strip(name));
      }
      r := j >= 0;
    }

    /** `jconfig_read_string` */
    method ReadString(group: string, name: string, def: string) returns (value: string)
      ensures var m := Get(View(groups), Strip(group)); value == if Strip(name) in m then m[Strip(name)] else def
    {
      ViewAt(groups, Strip(group));
      var i, j := FindVar(group, name);
      if i >= 0 {
        VarMapAt(groups[i].vars, Strip(name));
      }
      value := if j >= 0 then groups[i].vars[j].value else def;
    }

    /** `jconfig_add_group` */
    method AddGroup(name: string)
      modifies this
      ensures groups == ConfigLists.AddGroup(old(groups), Strip(name))
    {
      ViewAt(groups, Strip(name));
      var has := HasGroup(name);
      if has {
        return;
      }
      var stripped := StripSpaces(name);
      groups := [Group(stripped, [])] + groups;
    }

    /** `jconfig_add_var` */
    method AddVar(group: string, name: string)
      modifies this
      ensures groups == ConfigLists.AddVar(old(groups), Strip(group), Strip(name))
    {
      hide Strip, View, VarMap;
      ViewAt(groups, Strip(group));
      var i, j := FindVar(group, name);
      if j >= 0 {
        return;
      }
      var has := HasGroup(group);
      if !has {
        AddGroup(group);
      }
      i := FindGroup(group);
      var stripped := StripSpaces(name);
      groups := groups[i := groups[i].(vars := [Var(stripped, "")] + groups[i].vars)];
    }

    /** `jconfig_write_string`: without a value the variable becomes empty. */
    method WriteString(group: string, name: string, value: Option<string>)
      modifies this
      ensures groups == Write(old(groups), Strip(group), Strip(name), if value.Some? then Strip(value.value) else "")
    {
      StripBlank();
      hide Strip;
      AddVar(group, name);
      var i, j := FindVar(group, name);
      if j < 0 {
        return;
      }
      var stripped := StripSpaces(if value.Some? then value.value else " ");
      groups := groups[i := groups[i].(vars := groups[i].vars[j := groups[i].vars[j].(value := stripped)])];
    }

    /** `jconfig_remove_var` */
    method RemoveVar(group: string, name: string)
      modifies this
      ensures groups == ConfigLists.RemoveVar(old(groups), Strip(group), Strip(name))
    {
      var i := FindGroup(group);
      if i < 0 || groups[i].vars == [] {
        return;
      }
      var stripped := StripSpaces(name);
      var vars := groups[i].vars;
      var j := 0;
      while j < |vars|
        invariant 0 <= j <= |vars| && forall k :: 0 <= k < j ==> vars[k].name != stripped
      {
        if stripped == vars[j].name {
          groups := groups[i := groups[i].(vars := vars[..j] + vars[j + 1..])];
          return;
        }
        j := j + 1;
      }
    }

    /** `jconfig_remove_group`: first all variables of the group, one by one by name, then the group itself. */
    method RemoveGroup(name: string)
      requires Valid(groups)
      modifies this
      ensures groups == ConfigLists.RemoveGroup(old(groups), Strip(name))
    {
      ghost var was := groups;
      if groups == [] {
        return;
      }
      var stripped := StripSpaces(name);
      StripStripped(name);
      var i := FindGroup(stripped);
      if i < 0 {
        return;
      }
      while groups[i].vars != []
        invariant i < |groups| && Valid(groups) && groups == SetVars(was, i, groups[i].vars)
        decreases |groups[i].vars|
      {
        RemoveFirstVar(groups, i);
        RemoveVar(groups[i].name, groups[i].vars[0].name);
      }
      var k := 0;
      while k < |groups|
        invariant 0 <= k <= |groups| && forall l :: 0 <= l < k ==> groups[l].name != stripped
      {
        if stripped == groups[k].name {
          assert k == i;
          assert groups[..k] + groups[k + 1..] == Without(was, i);
          groups := groups[..k] + groups[k + 1..];
          return;
        }
        k := k + 1;
      }
    }

    /** `jconfig_close`: removing the first group by name, again and again, leaves nothing. */
    method Close()
      requires Valid(groups)
      modifies this
      ensures groups == []
    {
      while groups != []
        invariant Valid(groups)
        decreases |groups|
      {
        FirstByName(groups);
        RemoveGroupView(groups, groups[0].name);
        RemoveGroup(groups[0].name);
      }
    }
  }

  // ---------- Files ----------

  /** `fgets`: how many bytes it takes, and whether it runs into the end of the file. */
  method FGets(rest: string) returns (n: nat, eof: bool)
    ensures n == Chunk(rest, 0) && eof == HitsEnd(rest) && (rest != "" ==> n > 0)
  {
    n, eof := 0, false;
    while n < LIMIT
      invariant n <= |rest| && n <= LIMIT && Chunk(rest, n) == Chunk(rest, 0)
      invariant n > 0 ==> rest[n - 1] != '\n'
    {
      if n == |rest| {
        eof := true;
        return;
      }
      n := n + 1;
      if rest[n - 1] == '\n' {
        return;
      }
    }
  }

  /** What comes before the first `c`. */
  method UpTo(s: string, c: char) returns (r: string)
    ensures r == Cut(s, c)
  {
    var p := 0;
    while p < |s| && s[p] != c
      invariant p <= |s| && c !in s[..p]
    {
      p := p + 1;
    }
    r := s[..p];
    CutIs(s, c, p);
  }

  lemma CutIs(s: string, c: char, p: nat)
    requires p <= |s| && c !in s[..p] && (p < |s| ==> s[p] == c)
    ensures Cut(s, c) == s[..p]
  {
  }

  /** Line ends and a comment are cut off. */
  method CleanBuffer(buffer: string) returns (r: string)
    ensures r == Clean(buffer)
  {
    r := buffer;
    while r != "" && (r[|r| - 1] == '\n' || r[|r| - 1] == '\r')
      invariant TrimEol(r) == TrimEol(buffer)
      decreases |r|
    {
      r := r[..|r| - 1];
    }
    r := UpTo(r, '#');
  }

  lemma RoundOf(text: string, buffer: string, r: Reader)
    ensures var n := Chunk(text, 0);
      var cleaned := Clean(if text == "" then buffer else Cut(text[..n], '\0'));
      var r' := ReadLine(r, Strip(cleaned));
      ReadFrom(text, buffer, r) == if HitsEnd(text) then r' else ReadFrom(text[n..], cleaned, r')
    ensures text == "" ==> HitsEnd(text)
  {
    hide Clean, ReadLine, Strip;
  }

  method SaveVars(text: string, vars: seq<Var>) returns (out: string)
    ensures out == text + Text(VarLines(vars))
  {
    out := text;
    assert vars[0..] == vars;
    var j := 0;
    while j < |vars|
      invariant 0 <= j <= |vars| && out + Text(VarLines(vars[j..])) == text + Text(VarLines(vars))
    {
      VarText(vars[j..]);
      assert vars[j..][1..] == vars[j + 1..];
      Regroup(out, VarLine(vars[j]) + "\n", Text(VarLines(vars[j + 1..])));
      out := out + (vars[j].name + " = " + vars[j].value + "\n");
      j := j + 1;
    }
    assert out + "" == out;
  }

  lemma VarText(vs: seq<Var>)
    requires vs != []
    ensures Text(VarLines(vs)) == VarLine(vs[0]) + "\n" + Text(VarLines(vs[1..]))
  {
    assert VarLines(vs)[1..] == VarLines(vs[1..]);
  }

  lemma GroupText(gs: seq<Group>)
    requires gs != []
    ensures Text(GroupLines(gs)) == if gs[0].name == "" then Text(GroupLines(gs[1..]))
      else "\n[" + gs[0].name + "]\n" + Text(VarLines(gs[0].vars)) + Text(GroupLines(gs[1..]))
  {
    if gs[0].name != "" {
      var head := GroupLine(gs[0].name);
      TextAppend(["", head] + VarLines(gs[0].vars), GroupLines(gs[1..]));
      TextAppend(["", head], VarLines(gs[0].vars));
      Heading(gs[0].name);
    }
  }

  lemma Heading(name: string)
    ensures Text(["", GroupLine(name)]) == "\n[" + name + "]\n"
  {
    assert ["", GroupLine(name)][1..] == [GroupLine(name)];
    assert Text([GroupLine(name)]) == GroupLine(name) + "\n" + "";
  }

  lemma NoText()
    ensures Text(VarLines([])) == "" && Text(GroupLines([])) == ""
  {
  }

  lemma {:induction false} TextAppend(a: seq<string>, b: seq<string>)
    ensures Text(a + b) == Text(a) + Text(b)
    decreases |a|
  {
    if a == [] {
      assert a + b == b;
    } else {
      TextAppend(a[1..], b);
      assert (a + b)[1..] == a[1..] + b;
    }
  }

  lemma Group3(a: string, b: string, c: string, d: string)
    ensures a + b + c + d == a + (b + c + d)
  {
  }

  // ---------- Removing by name ----------

  lemma StripBlank()
    ensures Strip(" ") == ""
  {
    assert " "[1..] == "";
  }

  /** A variable that is removed by its own name is found at its own place. */
  lemma RemoveFirstVar(gs: seq<Group>, i: nat)
    requires Valid(gs) && i < |gs| && gs[i].vars != []
    ensures var gs' := ConfigLists.RemoveVar(gs, Strip(gs[i].name), Strip(gs[i].vars[0].name));
      gs' == SetVars(gs, i, gs[i].vars[1..]) && Valid(gs')
  {
    StripStripped(gs[i].name);
    StripStripped(gs[i].vars[0].name);
    RemoveVarView(gs, gs[i].name, gs[i].vars[0].name);
    FoundAt(gs, i);
    VarFoundAt(gs[i].vars, 0);
    assert Without(gs[i].vars, 0) == gs[i].vars[1..];
  }

  lemma FirstByName(gs: seq<Group>)
    requires Valid(gs) && gs != []
    ensures Strip(gs[0].name) == gs[0].name
    ensures ConfigLists.RemoveGroup(gs, gs[0].name) == gs[1..]
  {
    StripStripped(gs[0].name);
    assert Without(gs, 0) == gs[1..];
  }
}
