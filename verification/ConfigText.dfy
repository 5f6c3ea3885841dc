/** What the text of a settings file means, line by line: settings, headings and comments between blanks. */
module ConfigText {
  import opened ConfigFile
  import opened ConfigLists

  // ---------- Lines as they are written ----------

  /** Only spaces and tabs. */
  predicate Blanks(s: string) {
    forall i :: 0 <= i < |s| ==> s[i] == ' ' || s[i] == '\t'
  }

  /** No space or tab at either end. */
  predicate Tight(s: string) {
    s == "" || (s[0] != ' ' && s[0] != '\t' && s[|s| - 1] != ' ' && s[|s| - 1] != '\t')
  }

  /** None of the bytes that end a line or start a comment. */
  predicate Uncommented(s: string) {
    forall i :: 0 <= i < |s| ==> s[i] != '#' && s[i] != '\n' && s[i] != '\r' && s[i] != '\0'
  }

  /** What stands on a line before a comment, with the blanks around its parts. */
  datatype Content =
    | Setting(before: string, name: string, beforeEquals: string, afterEquals: string, value: string, after: string)
    | Heading(before: string, open: string, name: string, close: string, after: string)
    | Other(before: string, text: string, after: string)

  /** `comment` follows the `#` or the NUL that ends what is read of the line; there may be neither. */
  datatype Line = Line(content: Content, mark: Mark, comment: string, crs: string)

  datatype Mark = NoMark | Hash | Nul

  function ContentText(c: Content): string {
    match c
    case Setting(a, name, b, c, value, d) => (a + name + b) + "=" + (c + value + d)
    case Heading(a, b, name, c, d) => a + ("[" + (b + name + c) + "]") + d
    case Other(a, text, b) => a + text + b
  }

  function LineText(l: Line): string {
    ContentText(l.content) + CommentText(l) + (l.crs + "\n")
  }

  function CommentText(l: Line): string {
    match l.mark
    case NoMark => ""
    case Hash => "#" + l.comment
    case Nul => "\0" + l.comment
  }

  function FileText(lines: seq<Line>): string {
    if lines == [] then "" else LineText(lines[0]) + FileText(lines[1..])
  }

  predicate GoodContent(c: Content) {
    Uncommented(ContentText(c)) && Blanks(c.before) && Blanks(c.after) &&
    match c
    case Setting(_, name, b, c, value, _) =>
      && Tight(name) && Blanks(b) && Blanks(c) && Tight(value) && (name != "" ==> name[0] != '[')
      && forall i :: 0 <= i < |name| ==> name[i] != '='
    case Heading(_, b, name, c, _) => Blanks(b) && Tight(name) && Blanks(c)
    case Other(_, text, _) =>
      Tight(text) &&
      (if text != "" && text[0] == '[' then text[|text| - 1] != ']' else forall i :: 0 <= i < |text| ==> text[i] != '=')
  }

  /** The line fits the buffer, with its end: any number of carriage returns, and a newline. */
  predicate GoodLine(l: Line) {
    && GoodContent(l.content) && (forall i :: 0 <= i < |l.comment| ==> l.comment[i] != '\n')
    && (forall i :: 0 <= i < |l.crs| ==> l.crs[i] == '\r') && |LineText(l)| <= 254
  }

  // ---------- What they mean ----------

  /** The settings so far, and the group that further settings belong to. */
  datatype State = State(settings: Settings, group: string)

  function Effect(s: State, c: Content): State {
    match c
    case Setting(_, name, _, _, value, _) =>
      s.(settings := s.settings[s.group := Get(s.settings, s.group)[name := value]])
    case Heading(_, _, name, _, _) => State(s.settings[name := Get(s.settings, name)], name)
    case Other(_, _, _) => s
  }

  function Effects(s: State, lines: seq<Line>): State
    decreases |lines|
  {
    if lines == [] then s else Effects(Effect(s, lines[0].content), lines[1..])
  }

  // ---------- Stripping ----------

  lemma {:induction false} StripLeftOf(a: string, s: string)
    requires Blanks(a) && (s == "" || (s[0] != ' ' && s[0] != '\t'))
    ensures StripLeft(a + s) == s
  {
    if a == "" {
      assert a + s == s;
    } else {
      StripLeftOf(a[1..], s);
      assert (a + s)[1..] == a[1..] + s;
    }
  }

  lemma {:induction false} StripRightOf(s: string, d: string)
    requires Blanks(d) && (s == "" || (s[|s| - 1] != ' ' && s[|s| - 1] != '\t'))
    ensures StripRight(s + d) == s
  {
    if d == "" {
      assert s + d == s;
    } else {
      StripRightOf(s, d[..|d| - 1]);
      assert (s + d)[..|s + d| - 1] == s + d[..|d| - 1];
    }
  }

  /** Stripping removes exactly the spaces and tabs at both ends. */
  lemma StripAround(a: string, s: string, d: string)
    requires Blanks(a) && Tight(s) && Blanks(d)
    ensures Strip(a + s + d) == s
  {
    if s == "" {
      assert a + s + d == (a + d) + "";
      StripLeftOf(a + d, "");
    } else {
      assert a + s + d == a + (s + d);
      StripLeftOf(a, s + d);
      StripRightOf(s, d);
    }
  }

  /** The effect of the reader on the map and the group. */
  function StateOf(r: Reader): State {
    State(View(r.groups), Strip(r.group))
  }

  lemma OtherRead(r: Reader, a: string, text: string, d: string)
    requires GoodContent(Other(a, text, d))
    ensures ReadLine(r, Strip(a + text + d)) == r
  {
    StripAround(a, text, d);
    hide Strip;
    if text == "" || text[0] != '[' {
      CutBare(text, '=');
    }
  }

  lemma HeadingRead(r: Reader, a: string, b: string, name: string, c: string, d: string)
    requires Valid(r.groups) && GoodContent(Heading(a, b, name, c, d))
    ensures StateOf(ReadLine(r, Strip(a + ("[" + (b + name + c) + "]") + d))) ==
      State(View(r.groups)[name := Get(View(r.groups), name)], name)
  {
    hide Strip, View, Valid, AddGroup;
    var inner := b + name + c;
    var line := "[" + inner + "]";
    StripAround(a, line, d);
    StripAround(b, name, c);
    assert line[1..|line| - 1] == inner && line[|line| - 1] == ']';
    StripStripped(inner);
    AddGroupView(r.groups, name);
  }

  lemma SettingRead(r: Reader, a: string, name: string, b: string, c: string, value: string, d: string)
    requires Valid(r.groups) && GoodContent(Setting(a, name, b, c, value, d))
    ensures StateOf(ReadLine(r, Strip((a + name + b) + "=" + (c + value + d)))) ==
      State(View(r.groups)[Strip(r.group) := Get(View(r.groups), Strip(r.group))[name := value]], Strip(r.group))
  {
    hide Strip, View, Valid, Write, Stripped;
    var left, right := if name == "" then "" else name + b, if value == "" then "" else c + value;
    var line := left + "=" + right;
    SettingLine(a, name, b, c, value, d);
    CutAt(left, right);
    TightStripped(name);
    TightStripped(value);
    StripStripped(r.group);
    WriteView(r.groups, Strip(r.group), name, value);
  }

  lemma TightStripped(s: string)
    requires Tight(s)
    ensures Stripped(s)
  {
  }

  /** A setting without its outer blanks, and the parts before and behind the `=`. */
  lemma SettingLine(a: string, name: string, b: string, c: string, value: string, d: string)
    requires GoodContent(Setting(a, name, b, c, value, d))
    ensures var left, right := if name == "" then "" else name + b, if value == "" then "" else c + value;
      && Strip((a + name + b) + "=" + (c + value + d)) == left + "=" + right
      && Strip(left) == name && Strip(right) == value
      && (forall i :: 0 <= i < |left| ==> left[i] != '=') && (left + "=" + right)[0] != '['
  {
    hide Strip, Blanks, Tight, Uncommented;
    var left, before := if name == "" then "" else name + b, if name == "" then a + b else a;
    var right, after := if value == "" then "" else c + value, if value == "" then c + d else d;
    NameSide(a, name, b);
    ValueSide(c, value, d);
    Around(before, left, right, after);
    StripAround(before, left + "=" + right, after);
    LeftPart(name, b);
  }

  lemma NameSide(a: string, name: string, b: string)
    requires Blanks(a) && Tight(name) && Blanks(b)
    ensures var left, before := if name == "" then "" else name + b, if name == "" then a + b else a;
      && a + name + b == before + left && Blanks(before) && Strip(left) == name
      && (left == "" || (left[0] != ' ' && left[0] != '\t'))
  {
    hide Strip;
    NoBlanks();
    if name == "" {
      assert a + name + b == a + b + "";
      StripAround("", "", "");
      assert "" + "" + "" == "";
    } else {
      StripAround("", name, b);
      assert "" + name + b == name + b;
    }
  }

  lemma ValueSide(c: string, value: string, d: string)
    requires Blanks(c) && Tight(value) && Blanks(d)
    ensures var right, after := if value == "" then "" else c + value, if value == "" then c + d else d;
      && c + value + d == right + after && Blanks(after) && Strip(right) == value
      && (right == "" || (right[|right| - 1] != ' ' && right[|right| - 1] != '\t'))
  {
    hide Strip;
    NoBlanks();
    if value == "" {
      assert c + value + d == "" + (c + d);
      StripAround("", "", "");
      assert "" + "" + "" == "";
    } else {
      StripAround(c, value, "");
      assert c + value + "" == c + value;
    }
  }

  lemma NoBlanks()
    ensures Blanks("") && Tight("")
  {
  }

  lemma Around(before: string, left: string, right: string, after: string)
    requires left == "" || (left[0] != ' ' && left[0] != '\t')
    requires right == "" || (right[|right| - 1] != ' ' && right[|right| - 1] != '\t')
    ensures (before + left) + "=" + (right + after) == before + (left + "=" + right) + after
    ensures Tight(left + "=" + right)
  {
    var s := left + "=" + right;
    assert s[0] == if left == "" then '=' else left[0];
    assert s[|s| - 1] == if right == "" then '=' else right[|right| - 1];
  }

  lemma LeftPart(name: string, b: string)
    requires Blanks(b) && (name != "" ==> name[0] != '[') && forall i :: 0 <= i < |name| ==> name[i] != '='
    ensures var left := if name == "" then "" else name + b;
      (forall i :: 0 <= i < |left| ==> left[i] != '=') && (left != "" ==> left[0] != '[')
  {
  }

  // ---------- Comments and line ends ----------

  lemma CutIs(s: string, c: char, p: string)
    requires p <= s && c !in p && |p| < |s| && s[|p|] == c
    ensures Cut(s, c) == p
  {
    var r := Cut(s, c);
    assert forall i :: 0 <= i < |p| ==> p[i] == s[i] && p[i] in p;
    assert forall i :: 0 <= i < |r| ==> r[i] == s[i] && r[i] in r;
    assert |r| == |p|;
  }

  lemma NoByte(s: string)
    requires Uncommented(s)
    ensures '#' !in s && '\n' !in s && '\r' !in s && '\0' !in s && Bare(s)
  {
  }

  /** Everything from the first `#` on is dropped, the end of the line too. */
  lemma CommentCleaned(bare: string, rest: string)
    requires Uncommented(bare)
    ensures Clean(Cut(bare + "#" + rest, '\0')) == bare
  {
    hide Cut;
    NoByte(bare);
    var s := bare + "#" + rest;
    var t := Cut(s, '\0');
    assert s[..|bare|] == bare;
    PrefixHolds(s, t, |bare|);
    var u := TrimEol(t);
    assert t[|bare|] == '#';
    assert |u| > |bare|;
    assert u[..|bare|] == bare && u[|bare|] == '#';
    CutIs(u, '#', bare);
  }

  /** And everything from the first NUL on. */
  lemma NulCleaned(bare: string, rest: string)
    requires Uncommented(bare)
    ensures Clean(Cut(bare + "\0" + rest, '\0')) == bare
  {
    hide Cut, TrimEol, Clean;
    NoByte(bare);
    var s := bare + "\0" + rest;
    assert s[..|bare|] == bare;
    CutIs(s, '\0', bare);
    CleanBare(bare);
  }

  lemma PrefixHolds(s: string, t: string, n: nat)
    requires t == Cut(s, '\0') && n < |s| && '\0' !in s[..n] && s[n] != '\0'
    ensures n < |t|
  {
    assert forall i :: 0 <= i < n ==> s[i] == s[..n][i] && s[i] in s[..n];
  }

  lemma EndCleaned(bare: string, end: string)
    requires Uncommented(bare) && forall i :: 0 <= i < |end| ==> end[i] == '\r' || end[i] == '\n'
    ensures Clean(Cut(bare + end, '\0')) == bare
  {
    hide Cut, TrimEol;
    NoByte(bare);
    WholeLine(bare + end);
    TrimEnd(bare, end);
    CutBare(bare, '#');
  }

  lemma WholeLine(s: string)
    requires forall i :: 0 <= i < |s| ==> s[i] != '\0'
    ensures Cut(s, '\0') == s
  {
    assert forall i :: 0 <= i < |s| ==> s[i] != '\0';
  }

  lemma {:induction false} TrimEnd(bare: string, end: string)
    requires Bare(bare) && forall i :: 0 <= i < |end| ==> end[i] == '\r' || end[i] == '\n'
    ensures TrimEol(bare + end) == bare
    decreases |end|
  {
    hide TrimEol;
    if end == "" {
      assert bare + end == bare;
      TrimBare(bare);
    } else {
      var n := |end| - 1;
      TrimEnd(bare, end[..n]);
      TrimOne(bare + end[..n], end[n], bare + end);
    }
  }

  lemma TrimOne(t: string, c: char, s: string)
    requires IsEol(c) && s == t + [c]
    ensures TrimEol(s) == TrimEol(t)
  {
    assert s[..|s| - 1] == t;
  }

  /** A line is read as what stands on it before its comment and its end. */
  lemma LineRead(l: Line, rest: string, buffer: string, r: Reader)
    requires GoodLine(l)
    ensures var bare := ContentText(l.content);
      ReadFrom(LineText(l) + rest, buffer, r) == ReadFrom(rest, bare, ReadLine(r, Strip(bare)))
  {
    hide ContentText, GoodContent, ReadLine, Strip, Clean, Cut, Chunk, HitsEnd;
    var bare, eol := ContentText(l.content), l.crs + "\n";
    var body := bare + CommentText(l) + l.crs;
    LineBody(l, body);
    LineTaken(body, rest);
    if l.mark.Hash? {
      assert body + "\n" == bare + "#" + (l.comment + eol);
      CommentCleaned(bare, l.comment + eol);
    } else if l.mark.Nul? {
      assert body + "\n" == bare + "\0" + (l.comment + eol);
      NulCleaned(bare, l.comment + eol);
    } else {
      assert body + "\n" == bare + eol;
      EndCleaned(bare, eol);
    }
    assert LineText(l) + rest == body + "\n" + rest;
  }

  lemma LineBody(l: Line, body: string)
    requires GoodLine(l)
    requires body == ContentText(l.content) + CommentText(l) + l.crs
    ensures LineText(l) == body + "\n" && '\n' !in body && |body| < LIMIT && Uncommented(ContentText(l.content))
  {
    hide ContentText;
  }

  // ---------- Files ----------

  /** What a content does to the reader is its effect. */
  lemma ContentRead(r: Reader, c: Content)
    requires Valid(r.groups) && GoodContent(c)
    ensures StateOf(ReadLine(r, Strip(ContentText(c)))) == Effect(StateOf(r), c)
    ensures Valid(ReadLine(r, Strip(ContentText(c))).groups)
  {
    hide ReadLine, Strip, View, Valid;
    ReadLineValid(r, Strip(ContentText(c)));
    match c
    case Setting(a, name, b, c', value, d) => SettingRead(r, a, name, b, c', value, d);
    case Heading(a, b, name, c', d) => HeadingRead(r, a, b, name, c', d);
    case Other(a, text, d) => OtherRead(r, a, text, d);
  }

  /** The loop reads the lines one by one, and the last one once more. */
  lemma {:induction false} LinesRead(lines: seq<Line>, buffer: string, r: Reader)
    requires Valid(r.groups) && lines != [] && forall i :: 0 <= i < |lines| ==> GoodLine(lines[i])
    ensures View(ReadFrom(FileText(lines), buffer, r).groups) == Effects(StateOf(r), lines).settings
    decreases |lines|
  {
    hide ReadFrom, ReadLine, Strip, View, Valid, LineText, ContentText, GoodContent, Effect;
    var c := lines[0].content;
    var bare := ContentText(c);
    var r' := ReadLine(r, Strip(bare));
    GoodParts(lines[0]);
    LineRead(lines[0], FileText(lines[1..]), buffer, r);
    ContentRead(r, c);
    if |lines| == 1 {
      NoByte(bare);
      EndOfFile(bare, r');
      ReadLineTwice(r, Strip(bare));
      assert Effects(Effect(StateOf(r), c), lines[1..]) == Effect(StateOf(r), c);
    } else {
      LinesRead(lines[1..], bare, r');
    }
  }

  lemma GoodParts(l: Line)
    requires GoodLine(l)
    ensures GoodContent(l.content) && Uncommented(ContentText(l.content))
  {
  }

  /**
    Opening a file gives the settings that its lines spell, in order and under the headings before them, whatever blanks
    and comments are around them and however the lines end; a line that spells none does nothing.
   */
  lemma FileMeans(lines: seq<Line>, garbage: string)
    requires lines != [] && forall i :: 0 <= i < |lines| ==> GoodLine(lines[i])
    ensures View(Open(FileText(lines), garbage)) == Effects(State(map[], ""), lines).settings
  {
    hide ReadFrom, Valid, FileText, Effects;
    StartState();
    LinesRead(lines, garbage, Reader([], ""));
  }

  lemma StartState()
    ensures Valid([]) && StateOf(Reader([], "")) == State(map[], "")
  {
  }

  // ---------- Lines that are too long ----------

  /** After 254 bytes a line is broken, as if its end stood there. */
  lemma LongLineBroken(piece: string, rest: string, buffer: string, r: Reader)
    requires |piece| == 254 && '\n' !in piece && rest != ""
    ensures ReadFrom(piece + rest, buffer, r) == ReadFrom(piece + "\n" + rest, buffer, r)
  {
    hide ReadLine, Strip, Clean, Cut, Chunk, HitsEnd;
    assert piece + "\n" + rest == piece + ("\n" + rest);
    PieceTaken(piece, rest, buffer, r);
    PieceTaken(piece, "\n" + rest, buffer, r);
    var cleaned := Clean(Cut(piece, '\0'));
    var r' := ReadLine(r, Strip(cleaned));
    EmptyLine("\n" + rest, rest, cleaned, r');
    AnyBuffer(rest, "", cleaned, r');
  }

  lemma PieceTaken(piece: string, rest: string, buffer: string, r: Reader)
    requires |piece| == 254 && '\n' !in piece
    ensures var cleaned := Clean(Cut(piece, '\0'));
      ReadFrom(piece + rest, buffer, r) == ReadFrom(rest, cleaned, ReadLine(r, Strip(cleaned)))
  {
    hide ReadLine, Strip, Clean, Cut, Chunk;
    ChunkOfPiece(piece, rest, 0);
    assert (piece + rest)[..254] == piece && (piece + rest)[254..] == rest;
  }

  lemma {:induction false} ChunkOfPiece(piece: string, rest: string, n: nat)
    requires |piece| == 254 && '\n' !in piece && n <= 254
    ensures Chunk(piece + rest, n) == 254
    decreases 254 - n
  {
    if n < 254 {
      assert (piece + rest)[n] == piece[n] && piece[n] in piece;
      ChunkOfPiece(piece, rest, n + 1);
    }
  }

  lemma EmptyLine(text: string, rest: string, buffer: string, r: Reader)
    requires text == "\n" + rest
    ensures ReadFrom(text, buffer, r) == ReadFrom(rest, "", r)
  {
    hide TrimEol, Cut, StripLeft, StripRight;
    assert Chunk(text, 0) == 1 && text[..1] == "\n" && text[1..] == rest;
    NothingOf();
  }

  lemma NothingOf()
    ensures Clean(Cut("\n", '\0')) == "" && Strip("") == "" && Cut("", '=') == ""
  {
    assert Cut("\n", '\0') == "\n" && TrimEol("\n") == "";
  }

  /** The buffer only counts if there is nothing to read. */
  lemma AnyBuffer(text: string, buffer: string, buffer': string, r: Reader)
    requires text != ""
    ensures ReadFrom(text, buffer, r) == ReadFrom(text, buffer', r)
  {
    hide ReadLine, Strip, Clean, Cut, Chunk, HitsEnd;
  }

  // ---------- Files whose last line has no end ----------

  /** A line at the end of the file, without `\n`. */
  function UnendedText(l: Line): string {
    ContentText(l.content) + CommentText(l) + l.crs
  }

  lemma {:induction false} ChunkOfRest(text: string, n: nat)
    requires |text| < LIMIT && '\n' !in text && n <= |text|
    ensures Chunk(text, n) == |text|
    decreases |text| - n
  {
    if n < |text| {
      ChunkOfRest(text, n + 1);
    }
  }

  lemma UnendedRead(l: Line, buffer: string, r: Reader)
    requires GoodLine(l) && UnendedText(l) != ""
    ensures ReadFrom(UnendedText(l), buffer, r) == ReadLine(r, Strip(ContentText(l.content)))
  {
    hide ContentText, GoodContent, ReadLine, Strip, Clean, Cut, Chunk;
    var bare, text := ContentText(l.content), UnendedText(l);
    UnendedBody(l);
    ChunkOfRest(text, 0);
    assert text[..|text|] == text;
    if l.mark.Hash? {
      assert text == bare + "#" + (l.comment + l.crs);
      CommentCleaned(bare, l.comment + l.crs);
    } else if l.mark.Nul? {
      assert text == bare + "\0" + (l.comment + l.crs);
      NulCleaned(bare, l.comment + l.crs);
    } else {
      assert text == bare + l.crs;
      EndCleaned(bare, l.crs);
    }
  }

  lemma UnendedBody(l: Line)
    requires GoodLine(l)
    ensures '\n' !in UnendedText(l) && |UnendedText(l)| < LIMIT && Uncommented(ContentText(l.content))
  {
    hide ContentText;
  }

  lemma {:induction false} LinesThenRead(lines: seq<Line>, l: Line, buffer: string, r: Reader)
    requires Valid(r.groups) && (forall i :: 0 <= i < |lines| ==> GoodLine(lines[i]))
    requires GoodLine(l) && UnendedText(l) != ""
    ensures View(ReadFrom(FileText(lines) + UnendedText(l), buffer, r).groups) == Effects(StateOf(r), lines + [l]).settings
    decreases |lines|
  {
    hide ReadFrom, ReadLine, Strip, View, Valid, LineText, ContentText, GoodContent, Effect, UnendedText;
    if lines == [] {
      GoodParts(l);
      UnendedRead(l, buffer, r);
      ContentRead(r, l.content);
      OneEffect(StateOf(r), l);
      assert FileText([]) + UnendedText(l) == UnendedText(l) && [] + [l] == [l];
    } else {
      var rest := FileText(lines[1..]) + UnendedText(l);
      GoodParts(lines[0]);
      LineRead(lines[0], rest, buffer, r);
      ContentRead(r, lines[0].content);
      LinesThenRead(lines[1..], l, ContentText(lines[0].content), ReadLine(r, Strip(ContentText(lines[0].content))));
      assert (lines + [l])[1..] == lines[1..] + [l];
      assert FileText(lines) + UnendedText(l) == LineText(lines[0]) + rest;
    }
  }

  lemma OneEffect(s: State, l: Line)
    ensures Effects(s, [l]) == Effect(s, l.content)
  {
    assert Effects(Effect(s, l.content), [l][1..]) == Effect(s, l.content);
  }

  /** So it is if the last line has no end. */
  lemma UnendedMeans(lines: seq<Line>, l: Line, garbage: string)
    requires (forall i :: 0 <= i < |lines| ==> GoodLine(lines[i])) && GoodLine(l) && UnendedText(l) != ""
    ensures View(Open(FileText(lines) + UnendedText(l), garbage)) == Effects(State(map[], ""), lines + [l]).settings
  {
    hide ReadFrom, Valid, FileText, Effects, UnendedText;
    StartState();
    LinesThenRead(lines, l, garbage, Reader([], ""));
  }

  // ---------- What is written ----------

  /** One setting to a line. */
  function SettingsText(vs: seq<Var>): string {
    if vs == [] then "" else vs[0].name + " = " + vs[0].value + "\n" + SettingsText(vs[1..])
  }

  /** Each group under its heading, behind an empty line; what has no group is left out. */
  function GroupsText(gs: seq<Group>): string {
    if gs == [] then ""
    else if gs[0].name == "" then GroupsText(gs[1..])
    else "\n[" + gs[0].name + "]\n" + SettingsText(gs[0].vars) + GroupsText(gs[1..])
  }

  /** The text that is saved: the settings without a group first, if there are any, and then the groups in order. */
  lemma WrittenText(gs: seq<Group>, i: nat)
    requires i <= |gs| && (i < |gs| ==> gs[i].name == "") && forall j :: 0 <= j < i ==> gs[j].name != ""
    ensures Text(Lines(gs)) == (if i < |gs| then SettingsText(gs[i].vars) else "") + GroupsText(gs)
  {
    hide Text, VarLines, GroupLines, SettingsText, GroupsText, FindGroup;
    assert FindGroup(gs, "") == if i < |gs| then i else -1;
    TextOfBoth(VarLines(GlobalVars(gs)), GroupLines(gs));
    SettingsWritten(GlobalVars(gs));
    GroupsWritten(gs);
    NothingWritten();
  }

  lemma NothingWritten()
    ensures SettingsText([]) == ""
  {
  }

  lemma {:induction false} TextOfBoth(a: seq<string>, b: seq<string>)
    ensures Text(a + b) == Text(a) + Text(b)
  {
    if a == [] {
      assert a + b == b && "" + Text(b) == Text(b);
    } else {
      TextOfBoth(a[1..], b);
      assert (a + b)[1..] == a[1..] + b && (a + b)[0] == a[0];
      assert a[0] + "\n" + (Text(a[1..]) + Text(b)) == (a[0] + "\n" + Text(a[1..])) + Text(b);
    }
  }

  lemma {:induction false} SettingsWritten(vs: seq<Var>)
    ensures Text(VarLines(vs)) == SettingsText(vs)
  {
    if vs != [] {
      SettingsWritten(vs[1..]);
      FirstLineText(VarLine(vs[0]), VarLines(vs[1..]));
      hide Text;
    }
  }

  lemma {:induction false} GroupsWritten(gs: seq<Group>)
    ensures Text(GroupLines(gs)) == GroupsText(gs)
  {
    hide Text, VarLines, SettingsText;
    if gs == [] {
      FirstLineText("", []);
    } else {
      GroupsWritten(gs[1..]);
      if gs[0].name != "" {
        HeadingWritten(gs[0], GroupLines(gs[1..]));
      }
    }
  }

  lemma HeadingWritten(g: Group, lines: seq<string>)
    ensures Text(["", GroupLine(g.name)] + VarLines(g.vars) + lines) ==
      "\n[" + g.name + "]\n" + SettingsText(g.vars) + Text(lines)
  {
    hide Text, VarLines, SettingsText, GroupLine;
    var body := VarLines(g.vars) + lines;
    assert ["", GroupLine(g.name)] + VarLines(g.vars) + lines == [""] + ([GroupLine(g.name)] + body);
    FirstLineText("", [GroupLine(g.name)] + body);
    FirstLineText(GroupLine(g.name), body);
    TextOfBoth(VarLines(g.vars), lines);
    SettingsWritten(g.vars);
    HeadingLine(g.name, SettingsText(g.vars), Text(lines));
  }

  lemma HeadingLine(name: string, t: string, u: string)
    ensures "" + "\n" + (GroupLine(name) + "\n" + (t + u)) == "\n[" + name + "]\n" + t + u
  {
    var h := "\n[" + name + "]\n";
    assert "" + "\n" + (GroupLine(name) + "\n") == h;
    assert "" + "\n" + (GroupLine(name) + "\n" + (t + u)) == h + (t + u);
  }

  lemma FirstLineText(line: string, lines: seq<string>)
    ensures Text([line] + lines) == line + "\n" + Text(lines) && Text([]) == ""
  {
    assert ([line] + lines)[1..] == lines;
  }
}
