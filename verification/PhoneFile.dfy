/** The phone file: its text, and what it says to a reader. */
module PhoneFile {
  import opened CString
  import opened Grammar
  import opened Json
  import opened Sequences
  import Parser
  import Printer
  import StringToken

  datatype Phone = Phone(mac: string, ip: string, line: int, seen: int)

  const WIDTH := 20

  /** A string field keeps as many bytes as there is room for. */
  function Field(s: string): (r: string)
    ensures |r| <= WIDTH
  {
    if |s| <= WIDTH then s else s[..WIDTH]
  }

  /** Within quotes the string stands for itself. */
  predicate Unescaped(s: string) {
    forall i :: 0 <= i < |s| ==> StringToken.Ordinary(s[i])
  }

  /** A string that fits a field and is written as it is. */
  predicate Plain(s: string) {
    |s| <= WIDTH && Unescaped(s)
  }

  predicate Int32(n: int) {
    -0x8000_0000 <= n < 0x8000_0000
  }

  predicate Writable(p: Phone) {
    Plain(p.mac) && Plain(p.ip) && Int32(p.line) && Int32(p.seen)
  }

  predicate AllWritable(ps: seq<Phone>) {
    forall i :: 0 <= i < |ps| ==> Writable(ps[i])
  }

  // ---------- Text ----------

  function LineStart(key: string): string {
    "\t\t\"" + key + "\" : "
  }

  /** One record. */
  function PhoneText(p: Phone): string {
    "\t{\n" +
    (LineStart("mac") + ("\"" + p.mac + "\"") + ",\n") +
    (LineStart("ip_addr") + ("\"" + p.ip + "\"") + ",\n") +
    (LineStart("line_number") + Signed(p.line) + ",\n") +
    (LineStart("last_seen") + Signed(p.seen) + "\n") +
    "\t}"
  }

  /** The records from `i` on and the end of the file. */
  function TextFrom(ps: seq<Phone>, i: nat): string
    requires i <= |ps|
    decreases |ps| - i
  {
    if i == |ps| then "]}\n"
    else PhoneText(ps[i]) + (if i + 1 < |ps| then "," else "") + "\n" + TextFrom(ps, i + 1)
  }

  function FileText(ps: seq<Phone>): string {
    "{\"phones\": [\n" + TextFrom(ps, 0)
  }

  /** A field keeps a string of up to 20 bytes, and the first 20 bytes of a longer one. */
  lemma FieldBytes(s: string)
    ensures |s| <= 20 ==> Field(s) == s
    ensures |s| > 20 ==> |Field(s)| == 20 && forall i :: 0 <= i < 20 ==> Field(s)[i] == s[i]
  {
  }

  /** The lines of a record in the file. */
  function RecordBytes(p: Phone): string {
    "\t{\n" +
    ("\t\t\"mac\" : \"" + p.mac + "\",\n") +
    ("\t\t\"ip_addr\" : \"" + p.ip + "\",\n") +
    ("\t\t\"line_number\" : " + Signed(p.line) + ",\n") +
    ("\t\t\"last_seen\" : " + Signed(p.seen) + "\n") +
    "\t}"
  }

  lemma RecordText(p: Phone)
    ensures PhoneText(p) == RecordBytes(p)
  {
    hide Signed;
    StartTexts();
    hide LineStart;
    QuotedLine("\t\t\"mac\" : ", p.mac, "\t\t\"mac\" : \"");
    QuotedLine("\t\t\"ip_addr\" : ", p.ip, "\t\t\"ip_addr\" : \"");
  }

  lemma StartTexts()
    ensures LineStart("mac") == "\t\t\"mac\" : " && LineStart("ip_addr") == "\t\t\"ip_addr\" : "
    ensures LineStart("line_number") == "\t\t\"line_number\" : " && LineStart("last_seen") == "\t\t\"last_seen\" : "
    ensures "\t\t\"mac\" : " + "\"" == "\t\t\"mac\" : \"" && "\t\t\"ip_addr\" : " + "\"" == "\t\t\"ip_addr\" : \""
  {
  }

  lemma QuotedLine(start: string, s: string, open: string)
    requires start + "\"" == open
    ensures start + ("\"" + s + "\"") + ",\n" == open + s + "\",\n"
  {
    Regroup(start, "\"" + s, "\"");
    Regroup(start, "\"", s);
    assert start + ("\"" + s + "\"") == open + s + "\"";
    Regroup(open + s, "\"", ",\n");
    assert "\"" + ",\n" == "\",\n";
  }

  /** The bytes of the file: one record after the other, a comma behind each but the last. */
  lemma FileBytes(p: Phone, q: Phone)
    ensures FileText([]) == "{\"phones\": [\n]}\n"
    ensures FileText([p]) == "{\"phones\": [\n" + RecordBytes(p) + "\n]}\n"
    ensures FileText([p, q]) == "{\"phones\": [\n" + RecordBytes(p) + ",\n" + RecordBytes(q) + "\n]}\n"
  {
    RecordText(p);
    RecordText(q);
    hide PhoneText, RecordBytes;
    var a, b := RecordBytes(p), RecordBytes(q);
    assert TextFrom([p], 0) == a + "" + "\n" + "]}\n" == a + "\n]}\n";
    assert TextFrom([p, q], 1) == b + "" + "\n" + "]}\n" == b + "\n]}\n";
    assert TextFrom([p, q], 0) == a + "," + "\n" + (b + "\n]}\n") == a + ",\n" + b + "\n]}\n";
  }

  // ---------- The text is grammatical ----------

  function PlainUnits(s: string): seq<StringToken.Unit> {
    seq(|s|, i requires 0 <= i < |s| => StringToken.Plain(s[i]))
  }

  lemma {:induction false} PlainText(s: string, k: string)
    ensures StringToken.Emit(PlainUnits(s), k) == s + k
  {
    if s == "" {
      assert s + k == k;
    } else {
      PlainText(s[1..], k);
      assert PlainUnits(s)[1..] == PlainUnits(s[1..]);
      assert s + k == [s[0]] + (s[1..] + k);
    }
  }

  lemma {:induction false} PlainMeaning(s: string)
    requires Unescaped(s)
    ensures StringToken.AllWellFormed(PlainUnits(s)) && StringToken.Meaning(PlainUnits(s)) == s
  {
    if s != "" {
      PlainMeaning(s[1..]);
      assert PlainUnits(s)[1..] == PlainUnits(s[1..]);
    }
  }

  function NumberSyntax(n: int): Syntax {
    Figure(Parts(n < 0, Numeral(if n < 0 then -n else n), "", NO_E, "", ""))
  }

  function LineSyntax(key: string, value: Syntax, tail: Entries): Entries {
    Entry("\n\t\t", PlainUnits(key), " ", " ", value, if tail.NoEntry? then "\n\t" else "", tail)
  }

  function PhoneSyntax(p: Phone): Syntax {
    Braces("", LineSyntax("mac", Quoted(PlainUnits(p.mac)), LineSyntax("ip_addr", Quoted(PlainUnits(p.ip)),
      LineSyntax("line_number", NumberSyntax(p.line), LineSyntax("last_seen", NumberSyntax(p.seen), NoEntry)))))
  }

  function ListSyntax(ps: seq<Phone>, i: nat): Elements
    requires i <= |ps|
    decreases |ps| - i
  {
    if i == |ps| then NoElement
    else Element("\n\t", PhoneSyntax(ps[i]), if i + 1 == |ps| then "\n" else "", ListSyntax(ps, i + 1))
  }

  function FileSyntax(ps: seq<Phone>): Syntax {
    Braces("", Entry("", PlainUnits("phones"), "", " ", Brackets("\n", ListSyntax(ps, 0)), "", NoEntry))
  }

  /** One line of a record. */
  lemma LineEmits(key: string, value: Syntax, text: string, tail: Entries, k: string)
    requires forall j :: Emit(value, j) == text + j
    ensures EmitEntries(LineSyntax(key, value, tail), k) == "\n" + (LineStart(key) + (text +
      (if tail.NoEntry? then "\n\t}" + k else "," + EmitEntries(tail, k))))
  {
    hide Emit, EmitEntries, StringToken.Emit, LineStart, PlainUnits;
    var more := if tail.NoEntry? then "\n\t}" + k else "," + EmitEntries(tail, k);
    LineEntry(key, value, tail, k, more);
    PlainText(key, "\"" + (" " + (":" + (" " + Emit(value, more)))));
    LineParts(key, text + more);
  }

  lemma LineEntry(key: string, value: Syntax, tail: Entries, k: string, more: string)
    requires more == if tail.NoEntry? then "\n\t}" + k else "," + EmitEntries(tail, k)
    ensures EmitEntries(LineSyntax(key, value, tail), k) ==
      "\n\t\t" + ("\"" + StringToken.Emit(PlainUnits(key), "\"" + (" " + (":" + (" " + Emit(value, more))))))
  {
    hide *;
    var es := LineSyntax(key, value, tail);
    LineFields(key, value, tail);
    Printer.FirstEntry(es, k);
    Opened(es.key, " " + (":" + (" " + Emit(value, more))));
    assert (if tail.NoEntry? then "\n\t" + ("}" + k) else "" + ("," + EmitEntries(tail, k))) == more;
  }

  lemma LineFields(key: string, value: Syntax, tail: Entries)
    ensures var es := LineSyntax(key, value, tail);
      && es.Entry? && es.before == "\n\t\t" && es.key == PlainUnits(key) && es.beforeColon == " " && es.afterColon == " "
      && es.value == value && es.after == (if tail.NoEntry? then "\n\t" else "") && es.tail == tail
  {
    hide PlainUnits;
  }

  lemma Opened(us: seq<StringToken.Unit>, k: string)
    ensures EmitString(us, k) == "\"" + StringToken.Emit(us, "\"" + k)
  {
  }

  lemma LineParts(key: string, rest: string)
    ensures "\n\t\t" + ("\"" + (key + ("\"" + (" " + (":" + (" " + rest)))))) == "\n" + (LineStart(key) + rest)
  {
    assert "\n\t\t" + ("\"" + (key + ("\"" + (" " + (":" + (" " + rest)))))) == "\n\t\t\"" + (key + ("\" : " + rest));
    assert LineStart(key) + rest == "\t\t\"" + (key + ("\" : " + rest));
    assert "\n\t\t\"" == "\n" + "\t\t\"";
    Regroup("\n", "\t\t\"", key + ("\" : " + rest));
  }

  lemma StringEmits(s: string)
    ensures forall j :: Emit(Quoted(PlainUnits(s)), j) == ("\"" + s + "\"") + j
  {
    forall j
      ensures Emit(Quoted(PlainUnits(s)), j) == ("\"" + s + "\"") + j
    {
      PlainText(s, "\"" + j);
    }
  }

  lemma NumberEmits(n: int)
    ensures WellFormed(NumberSyntax(n), Lenient) && Value(NumberSyntax(n)) == Number(n, 0)
    ensures forall j :: Emit(NumberSyntax(n), j) == Signed(n) + j
  {
    var d := Numeral(if n < 0 then -n else n);
    NumeralDecimal(if n < 0 then -n else n);
    assert d + "" == d;
    forall j
      ensures Emit(NumberSyntax(n), j) == Signed(n) + j
    {
      Printer.EmitSigned(n, j);
    }
  }

  lemma LineEnd(start: string, text: string, rest: string)
    ensures (start + text + ",\n") + rest == start + (text + ("," + ("\n" + rest)))
  {
    assert ",\n" == "," + "\n";
    Regroup(start + text, ",\n", rest);
    Regroup(",", "\n", rest);
    Regroup(start, text, "," + ("\n" + rest));
  }

  lemma FiveLines(a: string, b: string, c: string, d: string, k: string)
    ensures "\t{\n" + a + b + c + d + "\t}" + k == "\t" + ("{" + ("\n" + (a + (b + (c + (d + ("\t}" + k)))))))
  {
    var t := "\t{\n";
    Regroup(t + a + b + c + d, "\t}", k);
    Regroup(t + a + b + c, d, "\t}" + k);
    Regroup(t + a + b, c, d + ("\t}" + k));
    Regroup(t + a, b, c + (d + ("\t}" + k)));
    Regroup(t, a, b + (c + (d + ("\t}" + k))));
    var rest := a + (b + (c + (d + ("\t}" + k))));
    assert t == "\t" + ("{" + "\n");
    Regroup("\t", "{" + "\n", rest);
    Regroup("{", "\n", rest);
  }

  lemma LastLine(start: string, text: string, k: string)
    ensures (start + text + "\n") + ("\t}" + k) == start + (text + ("\n\t}" + k))
  {
    assert "\n\t}" == "\n" + "\t}";
    Regroup("\n", "\t}", k);
    Regroup(start + text, "\n", "\t}" + k);
    Regroup(start, text, "\n\t}" + k);
  }

  lemma PhoneEmits(p: Phone, k: string)
    requires Writable(p)
    ensures "\t" + Emit(PhoneSyntax(p), k) == PhoneText(p) + k
  {
    var v1, v2 := Quoted(PlainUnits(p.mac)), Quoted(PlainUnits(p.ip));
    var v3, v4 := NumberSyntax(p.line), NumberSyntax(p.seen);
    var t1, t2, t3, t4 := "\"" + p.mac + "\"", "\"" + p.ip + "\"", Signed(p.line), Signed(p.seen);
    var l4 := LineSyntax("last_seen", v4, NoEntry);
    var l3 := LineSyntax("line_number", v3, l4);
    var l2 := LineSyntax("ip_addr", v2, l3);
    PlainMeaning(p.mac);
    PlainMeaning(p.ip);
    StringEmits(p.mac);
    StringEmits(p.ip);
    NumberEmits(p.line);
    NumberEmits(p.seen);
    assert WellFormed(v1, Lenient) && WellFormed(v2, Lenient);
    hide Emit, EmitEntries, LineStart, PlainUnits, Signed, NumberSyntax, WellFormed;
    LineEmits("mac", v1, t1, l2, k);
    LineEmits("ip_addr", v2, t2, l3, k);
    LineEmits("line_number", v3, t3, l4, k);
    LineEmits("last_seen", v4, t4, NoEntry, k);
    var s1, s2, s3, s4 := LineStart("mac"), LineStart("ip_addr"), LineStart("line_number"), LineStart("last_seen");
    FiveLines(s1 + t1 + ",\n", s2 + t2 + ",\n", s3 + t3 + ",\n", s4 + t4 + "\n", k);
    LastLine(s4, t4, k);
    var r4 := (s4 + t4 + "\n") + ("\t}" + k);
    LineEnd(s3, t3, r4);
    var r3 := (s3 + t3 + ",\n") + r4;
    LineEnd(s2, t2, r3);
    LineEnd(s1, t1, (s2 + t2 + ",\n") + r3);
    PhoneBraces(p, k);
  }

  lemma PhoneBraces(p: Phone, k: string)
    ensures Emit(PhoneSyntax(p), k) == "{" + EmitEntries(PhoneSyntax(p).entries, k)
  {
  }

  lemma {:induction false} ListEmits(ps: seq<Phone>, i: nat, k: string)
    requires i < |ps| && AllWritable(ps)
    ensures EmitElements(ListSyntax(ps, i), "}" + ("\n" + k)) == "\n" + (TextFrom(ps, i) + k)
    decreases |ps| - i
  {
    hide PhoneText, PhoneSyntax, Emit, EmitElements, ListSyntax, TextFrom;
    var last, rest, p := i + 1 == |ps|, TextFrom(ps, i + 1), PhoneText(ps[i]);
    var more := (if last then "" else ",") + ("\n" + (rest + k));
    if last {
      EmptyText(ps);
      EndOfFile(k);
    } else {
      ListEmits(ps, i + 1, k);
    }
    ElementEmits(ps, i, k, more);
    PhoneEmits(ps[i], more);
    NextText(ps, i, k, more);
    assert "\n\t" == "\n" + "\t";
    Regroup("\n", "\t", Emit(PhoneSyntax(ps[i]), more));
  }

  lemma EmptyText(ps: seq<Phone>)
    ensures TextFrom(ps, |ps|) == "]}\n"
  {
  }

  lemma EndOfFile(k: string)
    ensures "" + ("\n" + ("]}\n" + k)) == "\n" + ("]" + ("}" + ("\n" + k)))
  {
  }

  lemma NextText(ps: seq<Phone>, i: nat, k: string, more: string)
    requires i < |ps| && more == (if i + 1 == |ps| then "" else ",") + ("\n" + (TextFrom(ps, i + 1) + k))
    ensures TextFrom(ps, i) + k == PhoneText(ps[i]) + more
  {
    hide PhoneText;
    var p, comma, rest := PhoneText(ps[i]), if i + 1 < |ps| then "," else "", TextFrom(ps, i + 1);
    Regroup(p + comma + "\n", rest, k);
    Regroup(p + comma, "\n", rest + k);
    Regroup(p, comma, "\n" + (rest + k));
  }

  lemma ElementEmits(ps: seq<Phone>, i: nat, k: string, more: string)
    requires i < |ps|
    requires more == (if i + 1 == |ps| then "\n" + ("]" + ("}" + ("\n" + k)))
      else "," + EmitElements(ListSyntax(ps, i + 1), "}" + ("\n" + k)))
    ensures EmitElements(ListSyntax(ps, i), "}" + ("\n" + k)) == "\n\t" + Emit(PhoneSyntax(ps[i]), more)
  {
    hide PhoneSyntax, Emit;
    var es := ListSyntax(ps, i);
    assert "" + more == more;
  }

  /** The file is a grammatical text, whatever bytes follow it in memory. */
  lemma FileEmits(ps: seq<Phone>, junk: string)
    requires AllWritable(ps)
    ensures FileText(ps) + junk == Emit(FileSyntax(ps), "\n" + junk)
  {
    hide TextFrom, PhoneSyntax;
    var list := Brackets("\n", ListSyntax(ps, 0));
    var k := "}" + ("\n" + junk);
    if ps == [] {
      assert TextFrom(ps, 0) == "]}\n" by { EmptyText([]); }
      assert "\n" + ("]" + k) == "\n" + (TextFrom(ps, 0) + junk);
    } else {
      ListEmits(ps, 0, junk);
    }
    assert Emit(list, k) == "[" + ("\n" + (TextFrom(ps, 0) + junk));
    PlainText("phones", "\"" + ("" + (":" + (" " + Emit(list, "" + k)))));
    assert "" + k == k;
    FileStart(TextFrom(ps, 0) + junk);
    Regroup("{\"phones\": [\n", TextFrom(ps, 0), junk);
  }

  lemma FileStart(rest: string)
    ensures "{" + ("" + ("\"" + ("phones" + ("\"" + ("" + (":" + (" " + ("[" + ("\n" + rest))))))))) == "{\"phones\": [\n" + rest
  {
  }

  // ---------- What the file says ----------

  function PhoneJson(p: Phone): Json {
    Object([Member("mac", String(p.mac)), Member("ip_addr", String(p.ip)), Member("line_number", Number(p.line, 0)),
            Member("last_seen", Number(p.seen, 0))])
  }

  function PhoneJsons(ps: seq<Phone>): seq<Json> {
    seq(|ps|, i requires 0 <= i < |ps| => PhoneJson(ps[i]))
  }

  lemma BlankParts()
    ensures Gap("", Lenient) && Gap(" ", Lenient) && Gap("\n\t", Lenient) && Gap("\n\t\t", Lenient) && Gap("\n", Lenient)
  {
  }

  lemma LineMeans(key: string, value: Syntax, tail: Entries)
    requires Unescaped(key)
    requires WellFormed(value, Lenient) && WellFormedEntries(tail, Lenient)
    ensures WellFormedEntries(LineSyntax(key, value, tail), Lenient)
    ensures EntryValues(LineSyntax(key, value, tail)) == [Member(key, Value(value))] + EntryValues(tail)
  {
    BlankParts();
    PlainMeaning(key);
    hide Gap, PlainUnits, StringToken.Meaning, StringToken.AllWellFormed;
  }

  lemma PhoneMeans(p: Phone)
    requires Writable(p)
    ensures WellFormed(PhoneSyntax(p), Lenient) && Value(PhoneSyntax(p)) == PhoneJson(p)
  {
    PlainKeys();
    NumberEmits(p.line);
    NumberEmits(p.seen);
    var v1, v2 := Quoted(PlainUnits(p.mac)), Quoted(PlainUnits(p.ip));
    var v3, v4 := NumberSyntax(p.line), NumberSyntax(p.seen);
    QuotedMeans(p.mac);
    QuotedMeans(p.ip);
    hide WellFormed, WellFormedEntries, Value, EntryValues, PlainUnits, NumberSyntax, LineSyntax, Unescaped;
    LineMeans("last_seen", v4, NoEntry);
    var l4 := LineSyntax("last_seen", v4, NoEntry);
    LineMeans("line_number", v3, l4);
    var l3 := LineSyntax("line_number", v3, l4);
    LineMeans("ip_addr", v2, l3);
    var l2 := LineSyntax("ip_addr", v2, l3);
    LineMeans("mac", v1, l2);
    var l1 := LineSyntax("mac", v1, l2);
    NothingMeans();
    BracesMean(l1);
    assert EntryValues(l1) == PhoneJson(p).members;
  }

  lemma PlainKeys()
    ensures Unescaped("mac") && Unescaped("ip_addr") && Unescaped("line_number") && Unescaped("last_seen")
  {
  }

  lemma QuotedMeans(s: string)
    requires Unescaped(s)
    ensures WellFormed(Quoted(PlainUnits(s)), Lenient) && Value(Quoted(PlainUnits(s))) == String(s)
  {
    PlainMeaning(s);
  }

  lemma NothingMeans()
    ensures WellFormedEntries(NoEntry, Lenient) && EntryValues(NoEntry) == []
  {
  }

  lemma BracesMean(es: Entries)
    requires WellFormedEntries(es, Lenient)
    ensures WellFormed(Braces("", es), Lenient) && Value(Braces("", es)) == Object(EntryValues(es))
  {
  }

  lemma {:induction false} ListMeans(ps: seq<Phone>, i: nat)
    requires i <= |ps| && AllWritable(ps)
    ensures WellFormedElements(ListSyntax(ps, i), Lenient) && ElementValues(ListSyntax(ps, i)) == PhoneJsons(ps)[i..]
    decreases |ps| - i
  {
    hide Gap, PhoneSyntax, PhoneJson;
    if i < |ps| {
      PhoneMeans(ps[i]);
      ListMeans(ps, i + 1);
      BlankParts();
      assert PhoneJsons(ps)[i..] == [PhoneJson(ps[i])] + PhoneJsons(ps)[i + 1..];
    }
  }

  lemma OneEntry(key: string, value: Syntax)
    requires Unescaped(key)
    requires WellFormed(value, Lenient)
    ensures var es := Entry("", PlainUnits(key), "", " ", value, "", NoEntry);
      WellFormedEntries(es, Lenient) && EntryValues(es) == [Member(key, Value(value))]
  {
    PlainMeaning(key);
    BlankParts();
    hide Gap, PlainUnits, StringToken.Meaning, StringToken.AllWellFormed;
    assert EntryValues(NoEntry) == [];
  }

  lemma BracketsMean(ps: seq<Phone>)
    requires AllWritable(ps)
    ensures var list := Brackets("\n", ListSyntax(ps, 0));
      WellFormed(list, Lenient) && Value(list) == Array(PhoneJsons(ps))
  {
    ListMeans(ps, 0);
    assert PhoneJsons(ps)[0..] == PhoneJsons(ps);
    BlankParts();
    hide Gap, ListSyntax, PhoneJsons, WellFormedElements, ElementValues;
  }

  lemma FileMeans(ps: seq<Phone>)
    requires AllWritable(ps)
    ensures WellFormed(FileSyntax(ps), Lenient) && Value(FileSyntax(ps)) == Object([Member("phones", Array(PhoneJsons(ps)))])
  {
    BracketsMean(ps);
    BlankParts();
    OneEntry("phones", Brackets("\n", ListSyntax(ps, 0)));
    hide Gap, ListSyntax, PlainUnits, PhoneJsons, WellFormedEntries, EntryValues, WellFormedElements, ElementValues;
  }

  /** The file is parsed to its records and the parser stops at the final brace, whatever follows in memory. */
  lemma FileParses(ps: seq<Phone>, junk: string)
    requires AllWritable(ps)
    ensures Parser.ParseText(FileText(ps) + junk, false) ==
      Parser.Ok(Object([Member("phones", Array(PhoneJsons(ps)))]), "\n" + junk)
  {
    var c := FileSyntax(ps);
    assert !c.Figure?;
    hide *;
    FileMeans(ps);
    FileEmits(ps, junk);
    Parser.EmitHead(c, "\n" + junk);
    Parser.ParseEmit(c, "\n" + junk);
    AtOnce(Emit(c, "\n" + junk));
  }

  lemma AtOnce(s: string)
    requires Head(s) > ' '
    ensures Parser.ParseText(s, false) == Parser.ParseValue(s)
  {
    hide Parser.ParseValue;
  }
}
