/** The configuration file: how it is written, and how it is read back line by line. */
module ConfigFile {
  import opened ConfigLists

  // ---------- Writing ----------

  function VarLine(v: Var): string {
    v.name + " = " + v.value
  }

  function VarLines(vs: seq<Var>): (r: seq<string>)
    ensures |r| == |vs|
  {
    if vs == [] then [] else [VarLine(vs[0])] + VarLines(vs[1..])
  }

  function GroupLine(name: string): string {
    "[" + name + "]"
  }

  /** The global group has no name and no heading; it is skipped here. */
  function GroupLines(gs: seq<Group>): seq<string> {
    if gs == [] then []
    else if gs[0].name == "" then GroupLines(gs[1..])
    else ["", GroupLine(gs[0].name)] + VarLines(gs[0].vars) + GroupLines(gs[1..])
  }

  function GlobalVars(gs: seq<Group>): seq<Var> {
    var i := FindGroup(gs, "");
    if i < 0 then [] else gs[i].vars
  }

  /** The lines that `jconfig_save` writes: the global variables first. */
  function Lines(gs: seq<Group>): seq<string> {
    VarLines(GlobalVars(gs)) + GroupLines(gs)
  }

  function Text(lines: seq<string>): string {
    if lines == [] then "" else lines[0] + "\n" + Text(lines[1..])
  }

  // ---------- Reading ----------

  /** `fgets` takes at most so many bytes. */
  const LIMIT := 254

  /** How many bytes `fgets` takes, the first `n` of them already taken. */
  function Chunk(text: string, n: nat): (r: nat)
    requires n <= |text| && n <= LIMIT
    ensures n <= r <= |text| && r <= LIMIT
    ensures forall i :: n <= i < r - 1 ==> text[i] != '\n'
    ensures r < |text| && r < LIMIT ==> r > n && text[r - 1] == '\n'
    ensures r > n || n == |text| || n == LIMIT
    decreases |text| - n
  {
    if n == |text| || n == LIMIT then n
    else if text[n] == '\n' then n + 1
    else Chunk(text, n + 1)
  }

  /** Whether `fgets` runs into the end of the file. */
  predicate HitsEnd(text: string) {
    var n := Chunk(text, 0);
    n == |text| && n < LIMIT && (n == 0 || text[n - 1] != '\n')
  }

  /** What comes before the first `c`. */
  function Cut(s: string, c: char): (r: string)
    ensures r <= s && c !in r && (r == s || s[|r|] == c)
  {
    if s == "" || s[0] == c then "" else [s[0]] + Cut(s[1..], c)
  }

  predicate IsEol(c: char) {
    c == '\n' || c == '\r'
  }

  function TrimEol(s: string): (r: string)
    ensures r <= s && (r == "" || !IsEol(r[|r| - 1])) && forall i :: |r| <= i < |s| ==> IsEol(s[i])
  {
    if s != "" && IsEol(s[|s| - 1]) then TrimEol(s[..|s| - 1]) else s
  }

  /** What is left in the buffer of a line: neither its end nor a comment. */
  function Clean(buffer: string): string {
    Cut(TrimEol(buffer), '#')
  }

  /** The lists read so far, and the group that variables are added to. */
  datatype Reader = Reader(groups: seq<Group>, group: string)

  /** The effect of a stripped line. */
  function ReadLine(r: Reader, line: string): Reader {
    if line != "" && line[0] == '[' then
      if line[|line| - 1] == ']' then
        Reader(AddGroup(r.groups, Strip(line[1..|line| - 1])), line[1..|line| - 1])
      else r
    else
      var var' := Cut(line, '=');
      if var' == line then r
      else Reader(Write(r.groups, Strip(r.group), Strip(var'), Strip(line[|var'| + 1..])), r.group)
  }

  /** The loop of `jconfig_open` from a round on; at the end of the file the buffer is processed as it stands. */
  function ReadFrom(text: string, buffer: string, r: Reader): Reader
    decreases |text|
  {
    var n := Chunk(text, 0);
    var cleaned := Clean(if text == "" then buffer else Cut(text[..n], '\0'));
    var r' := ReadLine(r, Strip(cleaned));
    if HitsEnd(text) then r' else ReadFrom(text[n..], cleaned, r')
  }

  /** `jconfig_open` on a file with this text; `garbage` is what the buffer holds before anything is read. */
  function Open(text: string, garbage: string): seq<Group> {
    ReadFrom(text, garbage, Reader([], "")).groups
  }

  // ---------- Reading keeps the lists in order ----------

  lemma ReadLineValid(r: Reader, line: string)
    requires Valid(r.groups)
    ensures Valid(ReadLine(r, line).groups)
  {
    hide Strip, Stripped, AddGroup, Write, Valid;
    var n := |Cut(line, '=')|;
    StripStripped(r.group);
    StripStripped(line[..n]);
    if line != "" && line[|line| - 1] == ']' && |line| > 1 {
      StripStripped(line[1..|line| - 1]);
      AddGroupView(r.groups, Strip(line[1..|line| - 1]));
    }
    if n < |line| {
      assert line[..n] == Cut(line, '=');
      StripStripped(line[n + 1..]);
      WriteView(r.groups, Strip(r.group), Strip(line[..n]), Strip(line[n + 1..]));
    }
  }

  lemma {:induction false} ReadFromValid(text: string, buffer: string, r: Reader)
    requires Valid(r.groups)
    ensures Valid(ReadFrom(text, buffer, r).groups)
    decreases |text|
  {
    hide Valid, ReadLine, Clean, Strip;
    var n := Chunk(text, 0);
    var cleaned := Clean(if text == "" then buffer else Cut(text[..n], '\0'));
    ReadLineValid(r, Strip(cleaned));
    if !HitsEnd(text) {
      ReadFromValid(text[n..], cleaned, ReadLine(r, Strip(cleaned)));
    }
  }

  /** Whatever is read, names end up stripped and occur once. */
  lemma OpenValid(text: string, garbage: string)
    ensures Valid(Open(text, garbage))
  {
    ReadFromValid(text, garbage, Reader([], ""));
  }

  /** Processing a line twice is processing it once. */
  lemma ReadLineTwice(r: Reader, line: string)
    requires Valid(r.groups)
    ensures View(ReadLine(ReadLine(r, line), line).groups) == View(ReadLine(r, line).groups)
  {
    hide Strip, Stripped, AddGroup, Write, Valid, View;
    ReadLineValid(r, line);
    var n := |Cut(line, '=')|;
    var r' := ReadLine(r, line);
    if line != "" && line[0] == '[' {
      if line[|line| - 1] == ']' {
        var g := Strip(line[1..|line| - 1]);
        StripStripped(line[1..|line| - 1]);
        AddGroupView(r.groups, g);
        AddGroupView(r'.groups, g);
        SetTwice(View(r.groups), g, Get(View(r.groups), g), Get(View(r.groups), g));
      }
    } else if n < |line| {
      assert line[..n] == Cut(line, '=');
      var g, v, x := Strip(r.group), Strip(line[..n]), Strip(line[n + 1..]);
      StripStripped(r.group);
      StripStripped(line[..n]);
      StripStripped(line[n + 1..]);
      WriteView(r.groups, g, v, x);
      WriteView(r'.groups, g, v, x);
      SetTwice(Get(View(r.groups), g), v, x, x);
      SetTwice(View(r.groups), g, Get(View(r.groups), g)[v := x], Get(View(r.groups), g)[v := x]);
    }
  }

  // ---------- Lines that fit ----------

  predicate Bare(s: string) {
    forall i :: 0 <= i < |s| ==> s[i] != '#' && !IsEol(s[i]) && s[i] != '\0'
  }

  /** A line that is taken whole and holds no comment. */
  predicate Fits(line: string) {
    |line| < LIMIT && Bare(line)
  }

  /** Adding the lines to what has been read. */
  function Fold(r: Reader, lines: seq<string>): Reader
    decreases |lines|
  {
    if lines == [] then r else Fold(ReadLine(r, Strip(lines[0])), lines[1..])
  }

  lemma {:induction false} FoldMore(r: Reader, a: seq<string>, b: seq<string>)
    ensures Fold(r, a + b) == Fold(Fold(r, a), b)
    decreases |a|
  {
    hide ReadLine, Strip;
    if a == [] {
      assert a + b == b;
    } else {
      FoldMore(ReadLine(r, Strip(a[0])), a[1..], b);
      assert (a + b)[1..] == a[1..] + b;
    }
  }

  lemma {:induction false} FoldValid(r: Reader, lines: seq<string>)
    requires Valid(r.groups)
    ensures Valid(Fold(r, lines).groups)
    decreases |lines|
  {
    hide ReadLine, Strip, Valid;
    if lines != [] {
      ReadLineValid(r, Strip(lines[0]));
      FoldValid(ReadLine(r, Strip(lines[0])), lines[1..]);
    }
  }

  lemma {:induction false} ChunkOfLine(line: string, rest: string, n: nat)
    requires |line| < LIMIT && '\n' !in line && n <= |line|
    ensures Chunk(line + "\n" + rest, n) == |line| + 1
    decreases |line| - n
  {
    if n < |line| {
      ChunkOfLine(line, rest, n + 1);
    }
  }

  lemma {:induction false} CutBare(line: string, c: char)
    requires forall i :: 0 <= i < |line| ==> line[i] != c
    ensures Cut(line, c) == line
  {
  }

  lemma TrimBare(line: string)
    requires Bare(line)
    ensures TrimEol(line) == line && TrimEol(line + "\n") == line
  {
    assert (line + "\n")[..|line|] == line;
  }

  lemma CleanBare(line: string)
    requires Bare(line)
    ensures Clean(line) == line && Clean(Cut(line + "\n", '\0')) == line
  {
    CutBare(line + "\n", '\0');
    CutBare(line, '#');
    TrimBare(line);
  }

  lemma LineTaken(line: string, rest: string)
    requires |line| < LIMIT && '\n' !in line
    ensures var text := line + "\n" + rest;
      Chunk(text, 0) == |line| + 1 && text[..|line| + 1] == line + "\n" && text[|line| + 1..] == rest && !HitsEnd(text)
  {
    ChunkOfLine(line, rest, 0);
  }

  /** The lines are read one by one; at the end of the file the last one is processed once more. */
  lemma {:induction false} ReadLines(lines: seq<string>, buffer: string, r: Reader)
    requires lines != [] && forall i :: 0 <= i < |lines| ==> Fits(lines[i])
    ensures ReadFrom(Text(lines), buffer, r) == ReadLine(Fold(r, lines), Strip(lines[|lines| - 1]))
    decreases |lines|
  {
    hide Clean, Cut, ReadLine, Strip, HitsEnd, Chunk, ReadFrom;
    var line, rest := lines[0], Text(lines[1..]);
    var r' := ReadLine(r, Strip(line));
    FirstLine(line, rest, buffer, r);
    if |lines| == 1 {
      EndOfFile(line, r');
      assert Fold(r', lines[1..]) == r';
    } else {
      ReadLines(lines[1..], line, r');
    }
  }

  lemma FirstLine(line: string, rest: string, buffer: string, r: Reader)
    requires Fits(line)
    ensures ReadFrom(line + "\n" + rest, buffer, r) == ReadFrom(rest, line, ReadLine(r, Strip(line)))
  {
    hide Clean, Cut, ReadLine, Strip, HitsEnd, Chunk;
    LineTaken(line, rest);
    CleanBare(line);
  }

  /** At the end of the file the line that was read last is still in the buffer. */
  lemma EndOfFile(line: string, r: Reader)
    requires Bare(line)
    ensures ReadFrom("", line, r) == ReadLine(r, Strip(line))
  {
    CleanBare(line);
    hide ReadLine, Strip, Clean;
  }

  // ---------- Saved lines ----------

  predicate GoodName(s: string) {
    Bare(s) && (s != "" ==> s[0] != '[') && forall i :: 0 <= i < |s| ==> s[i] != '='
  }

  predicate GoodVar(v: Var) {
    GoodName(v.name) && Bare(v.value) && |v.name| + |v.value| + 3 < LIMIT
  }

  predicate GoodVars(vs: seq<Var>) {
    forall i :: 0 <= i < |vs| ==> GoodVar(vs[i])
  }

  /** No `#` or line end anywhere, no `=` in and no `[` before a variable's name, and lines that fit. */
  predicate Saveable(gs: seq<Group>) {
    forall i :: 0 <= i < |gs| ==> Bare(gs[i].name) && |gs[i].name| + 2 < LIMIT && GoodVars(gs[i].vars)
  }

  lemma {:induction false} VarLinesFit(vs: seq<Var>)
    requires GoodVars(vs)
    ensures forall i :: 0 <= i < |vs| ==> Fits(VarLines(vs)[i])
  {
    if vs != [] {
      VarLinesFit(vs[1..]);
    }
  }

  lemma {:induction false} GroupLinesFit(gs: seq<Group>)
    requires Saveable(gs)
    ensures forall i :: 0 <= i < |GroupLines(gs)| ==> Fits(GroupLines(gs)[i])
  {
    if gs != [] {
      GroupLinesFit(gs[1..]);
      VarLinesFit(gs[0].vars);
      hide VarLines, GoodVar;
    }
  }

  /** A line without its outer blanks: what comes before the first `=`, and what behind. */
  lemma SavedLine(v: Var)
    requires GoodName(v.name) && Stripped(v.name) && Stripped(v.value)
    ensures var line := Strip(VarLine(v)); var n := |Cut(line, '=')|;
      && line != "" && line[0] != '[' && n < |line|
      && Strip(Cut(line, '=')) == v.name && Strip(line[n + 1..]) == v.value
  {
    var left, right := if v.name == "" then "" else v.name + " ", if v.value == "" then "" else " " + v.value;
    var line := left + "=" + right;
    StripEnds(v);
    CutAt(left, right);
    StripName(v.name);
    StripValue(v.value);
  }

  lemma StripName(name: string)
    requires Stripped(name)
    ensures Strip(if name == "" then "" else name + " ") == name
  {
    if name != "" {
      var s := name + " ";
      assert s[..|s| - 1] == name;
      assert StripLeft(s) == s && StripRight(s) == StripRight(name);
    }
  }

  lemma StripValue(value: string)
    requires Stripped(value)
    ensures Strip(if value == "" then "" else " " + value) == value
  {
    if value != "" {
      var s := " " + value;
      assert s[1..] == value;
      assert StripLeft(s) == StripLeft(value) == value;
    }
  }

  lemma {:induction false} CutAt(left: string, right: string)
    requires forall i :: 0 <= i < |left| ==> left[i] != '='
    ensures Cut(left + "=" + right, '=') == left && (left + "=" + right)[|left| + 1..] == right
  {
    if left == "" {
      assert "" + "=" + right == "=" + right;
    } else {
      CutAt(left[1..], right);
      assert (left + "=" + right)[1..] == left[1..] + "=" + right;
    }
  }

  lemma StripEnds(v: Var)
    requires Stripped(v.name) && Stripped(v.value)
    ensures var left := if v.name == "" then "" else v.name + " ";
      var right := if v.value == "" then "" else " " + v.value;
      Strip(VarLine(v)) == left + "=" + right
  {
    var left := if v.name == "" then "" else v.name + " ";
    var right := if v.value == "" then "" else " " + v.value;
    var middle := left + "= " + v.value;
    if v.name == "" {
      assert VarLine(v)[1..] == middle;
      assert StripLeft(VarLine(v)) == StripLeft(middle) == middle;
    } else {
      assert VarLine(v) == middle;
      assert StripLeft(middle) == middle;
    }
    if v.value == "" {
      assert middle[..|middle| - 1] == left + "=" + right;
      assert StripRight(middle) == StripRight(left + "=");
      assert left + "=" + right == left + "=";
    } else {
      assert middle == left + "=" + right;
    }
  }

  // ---------- Reading saved lines ----------

  lemma ReadSavedVar(r: Reader, v: Var)
    requires GoodName(v.name) && Stripped(v.name) && Stripped(v.value)
    ensures ReadLine(r, Strip(VarLine(v))) == Reader(Write(r.groups, Strip(r.group), v.name, v.value), r.group)
  {
    SavedLine(v);
    hide Strip, Write, Cut, VarLine;
  }

  lemma ReadSavedGroup(r: Reader, name: string)
    requires Stripped(name)
    ensures ReadLine(r, Strip(GroupLine(name))) == Reader(AddGroup(r.groups, name), name)
    ensures ReadLine(r, Strip("")) == r
  {
    var line := GroupLine(name);
    assert Strip(line) == line && line[1..|line| - 1] == name;
    StripStripped(name);
    hide Strip, AddGroup;
  }

  lemma VarMerge(m: map<string, string>, vs: seq<Var>)
    requires ValidVars(vs) && vs != []
    ensures m[vs[0].name := vs[0].value] + VarMap(vs[1..]) == m + VarMap(vs)
  {
    VarMapAt(vs[1..], vs[0].name);
  }

  /** The lines of variables add their entries to the group that is being read. */
  lemma {:induction false} FoldVars(r: Reader, vs: seq<Var>)
    requires Valid(r.groups) && ValidVars(vs) && GoodVars(vs) && (vs != [] || Strip(r.group) in View(r.groups))
    ensures var r', g := Fold(r, VarLines(vs)), Strip(r.group);
      r'.group == r.group && View(r'.groups) == View(r.groups)[g := Get(View(r.groups), g) + VarMap(vs)]
    decreases |vs|
  {
    hide Strip, View, VarMap, Write, Valid, VarLine, ReadLine;
    var g, m := Strip(r.group), View(r.groups);
    if vs == [] {
      NoVars(Get(m, g));
      assert m[g := m[g]] == m;
    } else {
      var v := vs[0];
      var r1 := Reader(Write(r.groups, g, v.name, v.value), r.group);
      FirstVar(vs);
      ReadSavedVar(r, v);
      StripStripped(r.group);
      WriteView(r.groups, g, v.name, v.value);
      FoldVars(r1, vs[1..]);
      VarMerge(Get(m, g), vs);
      SetTwice(m, g, Get(m, g)[v.name := v.value], Get(m, g) + VarMap(vs));
      assert VarLines(vs)[1..] == VarLines(vs[1..]);
    }
  }

  lemma NoVars(m: map<string, string>)
    ensures m + VarMap([]) == m && map[] + m == m
  {
  }

  lemma FirstVar(vs: seq<Var>)
    requires ValidVars(vs) && GoodVars(vs) && vs != []
    ensures Stripped(vs[0].name) && Stripped(vs[0].value) && GoodName(vs[0].name)
    ensures ValidVars(vs[1..]) && GoodVars(vs[1..])
  {
  }

  /** The lines of one group with its heading. */
  lemma FoldGroup(r: Reader, g: Group)
    requires Valid(r.groups) && Stripped(g.name) && ValidVars(g.vars) && GoodVars(g.vars) && g.name !in View(r.groups)
    ensures var r' := Fold(r, ["", GroupLine(g.name)] + VarLines(g.vars));
      Valid(r'.groups) && View(r'.groups) == View(r.groups)[g.name := VarMap(g.vars)]
  {
    var lines := ["", GroupLine(g.name)] + VarLines(g.vars);
    FoldValid(r, lines);
    hide Strip, View, VarMap, Valid, ValidVars, GoodVars, ReadLine, AddGroup, GroupLine;
    assert lines[1..] == [GroupLine(g.name)] + VarLines(g.vars) && lines[1..][1..] == VarLines(g.vars);
    ReadSavedGroup(r, g.name);
    var r1 := Reader(AddGroup(r.groups, g.name), g.name);
    assert Fold(r, lines) == Fold(r1, VarLines(g.vars));
    AddGroupView(r.groups, g.name);
    StripStripped(g.name);
    FoldVars(r1, g.vars);
    NoVars(VarMap(g.vars));
    SetTwice(View(r.groups), g.name, map[], VarMap(g.vars));
  }

  /** The groups with a name. */
  function Named(gs: seq<Group>): Settings {
    View(gs) - {""}
  }

  lemma NamedStep(m: Settings, gs: seq<Group>)
    requires Valid(gs) && gs != []
    ensures gs[0].name == "" ==> Named(gs) == Named(gs[1..])
    ensures gs[0].name != "" ==> m[gs[0].name := VarMap(gs[0].vars)] + Named(gs[1..]) == m + Named(gs)
  {
    hide VarMap, ValidVars;
    ViewAt(gs[1..], gs[0].name);
  }

  lemma FirstGroup(gs: seq<Group>)
    requires Valid(gs) && Saveable(gs) && gs != []
    ensures Stripped(gs[0].name) && ValidVars(gs[0].vars) && GoodVars(gs[0].vars) && Valid(gs[1..]) && Saveable(gs[1..])
    ensures forall i :: 1 <= i < |gs| ==> gs[i].name != gs[0].name
  {
    hide ValidVars, GoodVars, Stripped;
  }

  /** The lines of the groups add those with a name, whatever has been read before. */
  lemma {:induction false} FoldGroups(r: Reader, gs: seq<Group>)
    requires Valid(r.groups) && Valid(gs) && Saveable(gs)
    requires forall i :: 0 <= i < |gs| && gs[i].name != "" ==> gs[i].name !in View(r.groups)
    ensures View(Fold(r, GroupLines(gs)).groups) == View(r.groups) + Named(gs)
    decreases |gs|
  {
    hide View, VarMap, Valid, Saveable, ReadLine, Strip, VarLines, GroupLine, Named, Fold;
    if gs == [] {
      NoGroups(r, View(r.groups));
    } else {
      FirstGroup(gs);
      NamedStep(View(r.groups), gs);
      if gs[0].name == "" {
        FoldGroups(r, gs[1..]);
      } else {
        var lines := ["", GroupLine(gs[0].name)] + VarLines(gs[0].vars);
        FoldGroup(r, gs[0]);
        FoldMore(r, lines, GroupLines(gs[1..]));
        FoldGroups(Fold(r, lines), gs[1..]);
      }
    }
  }

  lemma NoGroups(r: Reader, m: Settings)
    ensures Fold(r, []) == r && m + Named([]) == m && View([]) == map[]
  {
  }

  /** The map without a global group that is empty. */
  function Tidy(m: Settings): Settings {
    if "" in m && m[""] == map[] then m - {""} else m
  }

  /** Reading the saved lines gives the map back. */
  lemma FoldLines(gs: seq<Group>)
    requires Valid(gs) && Saveable(gs)
    ensures View(Fold(Reader([], ""), Lines(gs)).groups) == Tidy(View(gs))
  {
    hide *;
    var r, vs := Reader([], ""), GlobalVars(gs);
    var r1 := Fold(r, VarLines(vs));
    StartEmpty(gs);
    Globals(gs);
    FoldMore(r, VarLines(vs), GroupLines(gs));
    FoldValid(r, VarLines(vs));
    GlobalLines(vs);
    FoldGroups(r1, gs);
    TidyParts(View(gs), VarMap(vs));
  }

  lemma StartEmpty(gs: seq<Group>)
    ensures Valid([]) && Lines(gs) == VarLines(GlobalVars(gs)) + GroupLines(gs) && VarMap([]) == map[]
    ensures Named(gs) == View(gs) - {""}
  {
    hide VarLines, GroupLines, View;
  }

  lemma TidyParts(m: Settings, x: map<string, string>)
    requires if "" in m then m[""] == x else x == map[]
    ensures (if x == map[] then map[] else map["" := x]) + (m - {""}) == Tidy(m)
  {
  }

  lemma Globals(gs: seq<Group>)
    requires Valid(gs) && Saveable(gs)
    ensures ValidVars(GlobalVars(gs)) && GoodVars(GlobalVars(gs))
    ensures if "" in View(gs) then View(gs)[""] == VarMap(GlobalVars(gs)) else GlobalVars(gs) == []
  {
    hide View, VarMap;
    ViewAt(gs, "");
  }

  lemma GlobalLines(vs: seq<Var>)
    requires ValidVars(vs) && GoodVars(vs)
    ensures var m := View(Fold(Reader([], ""), VarLines(vs)).groups);
      m == (if VarMap(vs) == map[] then map[] else map["" := VarMap(vs)]) && forall g :: g in m ==> g == ""
  {
    if vs != [] {
      FoldVars(Reader([], ""), vs);
      NoVars(VarMap(vs));
      assert vs[0].name in VarMap(vs);
    }
  }

  lemma LinesFit(gs: seq<Group>)
    requires Valid(gs) && Saveable(gs)
    ensures forall i :: 0 <= i < |Lines(gs)| ==> Fits(Lines(gs)[i])
  {
    Globals(gs);
    VarLinesFit(GlobalVars(gs));
    GroupLinesFit(gs);
    hide VarLines, GroupLines, Fits, Valid, Saveable;
  }

  lemma FoldLast(r: Reader, lines: seq<string>)
    requires lines != []
    ensures var n := |lines| - 1; Fold(r, lines) == ReadLine(Fold(r, lines[..n]), Strip(lines[n]))
  {
    hide ReadLine, Strip;
    var n := |lines| - 1;
    FoldMore(r, lines[..n], [lines[n]]);
    assert lines[..n] + [lines[n]] == lines;
  }

  /**
    Opening a saved file gives the map back, apart from a global group without variables, provided that there was a
    line to save.
   */
  lemma SaveThenOpen(gs: seq<Group>, garbage: string)
    requires Valid(gs) && Saveable(gs) && Lines(gs) != []
    ensures View(Open(Text(Lines(gs)), garbage)) == Tidy(View(gs))
  {
    var r, lines := Reader([], ""), Lines(gs);
    var n := |lines| - 1;
    LinesFit(gs);
    FoldLines(gs);
    FoldValid(r, lines[..n]);
    hide Valid, Saveable, Lines, View, ReadLine, Strip, Fits, Fold, Text;
    ReadLines(lines, garbage, r);
    FoldLast(r, lines);
    ReadLineTwice(Fold(r, lines[..n]), Strip(lines[n]));
  }

  /** A stripped line that neither starts a group nor assigns a variable. */
  predicate Idle(line: string) {
    if line != "" && line[0] == '[' then line[|line| - 1] != ']' else forall i :: 0 <= i < |line| ==> line[i] != '='
  }

  lemma HeadingCounts(g: string)
    requires Stripped(g)
    ensures View(AddGroup([], g)) != map[]
  {
    hide AddGroup, Stripped;
    NothingYet();
    AddGroupView([], g);
    assert g in View(AddGroup([], g));
  }

  lemma AssignmentCounts(g: string, v: string, x: string)
    requires Stripped(g) && Stripped(v) && Stripped(x)
    ensures View(Write([], g, v, x)) != map[]
  {
    hide Write, Stripped;
    NothingYet();
    WriteView([], g, v, x);
    assert g in View(Write([], g, v, x));
  }

  /** From nothing, a line that is not idle makes a group. */
  lemma IdleLine(line: string)
    ensures View(ReadLine(Reader([], ""), line).groups) == map[] <==> Idle(line)
  {
    hide Write, AddGroup, Strip, View, Stripped;
    NoGroups(Reader([], ""), map[]);
    var n := |Cut(line, '=')|;
    if line != "" && line[0] == '[' {
      if line[|line| - 1] == ']' {
        StripStripped(line[1..|line| - 1]);
        HeadingCounts(Strip(line[1..|line| - 1]));
      }
    } else if n < |line| {
      StripStripped("");
      StripStripped(Cut(line, '='));
      StripStripped(line[n + 1..]);
      AssignmentCounts(Strip(""), Strip(Cut(line, '=')), Strip(line[n + 1..]));
    }
  }

  /**
    Exactly when opening a saved file gives the map back, apart from a global group without variables: there was a
    line to save, or what is in the line buffer does nothing.
   */
  lemma RestoredIff(gs: seq<Group>, garbage: string)
    requires Valid(gs) && Saveable(gs)
    ensures View(Open(Text(Lines(gs)), garbage)) == Tidy(View(gs)) <==> Lines(gs) != [] || Idle(Strip(Clean(garbage)))
  {
    if Lines(gs) != [] {
      SaveThenOpen(gs, garbage);
    } else {
      var r := Reader([], "");
      FoldLines(gs);
      NoGroups(r, map[]);
      IdleLine(Strip(Clean(garbage)));
      OpenNothing(garbage);
      hide Open, ReadLine, Strip, Clean, View, Tidy, Idle, Valid, Saveable;
    }
  }

  lemma OpenNothing(garbage: string)
    ensures Open(Text([]), garbage) == ReadLine(Reader([], ""), Strip(Clean(garbage))).groups
  {
    hide ReadLine, Strip, Clean;
  }

  /** Without a line the file is empty, and what happens to be in the buffer is read instead. */
  lemma EmptyFileReadsGarbage()
    ensures Text(Lines([])) == "" && View(Open(Text(Lines([])), "a = 1")) == map["" := map["a" := "1"]]
  {
    hide *;
    var v, r := Var("a", "1"), Reader([], "");
    GarbageLine();
    NothingYet();
    EndOfFile("a = 1", r);
    ReadSavedVar(r, v);
    NoGroups(r, map[]);
    WriteView([], "", "a", "1");
  }

  lemma NothingYet()
    ensures Get(map[], "") == map[] && Strip("") == "" && Valid([]) && Text(Lines([])) == ""
    ensures Open("", "a = 1") == ReadFrom("", "a = 1", Reader([], "")).groups
  {
    hide ReadFrom;
  }

  lemma GarbageLine()
    ensures VarLine(Var("a", "1")) == "a = 1" && Bare("a = 1") && GoodName("a")
    ensures Stripped("") && Stripped("a") && Stripped("1")
  {
  }
}
