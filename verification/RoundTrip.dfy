/** The printers and the parser together. */
module RoundTrip {
  import opened CString
  import opened Items
  import opened Json
  import opened Memory
  import opened PrintBuffer
  import opened Printer
  import BufferedPrinter
  import ExactPrinter
  import Grammar
  import ItemParser
  import Parser

  /** The three words, written and read, and the brackets of containers that are empty. */
  lemma Words(depth: nat, k: string)
    ensures Print(Null, depth, true) == Print(Null, depth, false) == "null" && Parser.ParseValue("null" + k) == Parser.Ok(Null, k)
    ensures Print(True, depth, true) == Print(True, depth, false) == "true" && Parser.ParseValue("true" + k) == Parser.Ok(True, k)
    ensures Print(False, depth, true) == Print(False, depth, false) == "false"
    ensures Parser.ParseValue("false" + k) == Parser.Ok(False, k)
    ensures Print(Array([]), depth, true) == Print(Array([]), depth, false) == "[]"
    ensures Parser.ParseValue("[]" + k) == Parser.Ok(Array([]), k)
    ensures Print(Object([]), depth, false) == "{}" && Parser.ParseValue("{}" + k) == Parser.Ok(Object([]), k)
  {
    assert ("null" + k)[4..] == k && ("true" + k)[4..] == k && ("false" + k)[5..] == k;
    Empty('[', ']', k);
    Empty('{', '}', k);
  }

  lemma Empty(open: char, close: char, k: string)
    requires close > ' '
    ensures ([open, close] + k)[1..] == [close] + k && Skip([close] + k) == [close] + k && ([close] + k)[1..] == k
  {
  }

  /** A printed document is parsed back, even if nothing may follow it. */
  lemma ParsePrinted(v: Json, depth: nat, fmt: bool, requireEnd: bool)
    requires Printable(v)
    ensures Parser.ParseText(Print(v, depth, fmt), requireEnd) == Parser.Ok(v, "")
  {
    hide *;
    var s := Print(v, depth, fmt);
    LayoutMeans(v, depth, fmt);
    LayoutEmits(v, depth, fmt, "");
    Grammar.Relax(Layout(v, depth, fmt), Grammar.Lenient);
    Parser.EmitHead(Layout(v, depth, fmt), "");
    assert s + "" == s;
    NothingFollows();
    PrintThenParse(v, depth, fmt, "");
    WholeText(s, v, requireEnd);
  }

  lemma NothingFollows()
    ensures Parser.Stops("")
  {
  }

  lemma WholeText(s: string, v: Json, requireEnd: bool)
    requires Head(s) > ' ' && Parser.ParseValue(s) == Parser.Ok(v, "")
    ensures Parser.ParseText(s, requireEnd) == Parser.Ok(v, "")
  {
    hide Parser.ParseValue;
  }

  /** `cJSON_Print` and `cJSON_PrintBuffered` agree, byte for byte, whatever the size of the first buffer. */
  method PrintBothWays(h: Heap, item: Item, prebuffer: nat, fmt: bool, ghost sh: Shape, ghost v: Json)
    returns (exact: array?<char>, p: Buffer, at: int)
    requires Is(sh) && Holds(sh, v) && Printable(v) && item == sh.node && h !in sh.foot
    requires |Print(v, 0, fmt)| + 32 <= MAX_SIZE
    modifies h
    ensures h.live == old(h.live) + Block(p.buffer) + Block(exact) && fresh(Block(exact)) && fresh(Block(p.buffer))
    ensures Accounted(exact != null && at >= 0, false, old(h.failures), h.failures)
    ensures exact != null && at >= 0 ==> var n := |Print(v, 0, fmt)|;
      && n < exact.Length && p.buffer != null && n < p.buffer.Length
      && exact[..n + 1] == p.buffer[..n + 1] == Print(v, 0, fmt) + "\0"
  {
    hide Is, Holds, FootAll, Print, Printable;
    p, at := BufferedPrinter.PrintBuffered(h, item, prebuffer, fmt, sh, v);
    exact := ExactPrinter.PrintValue(h, item, 0, fmt, sh, v);
    if exact != null && at >= 0 {
      ghost var n := |Print(v, 0, fmt)|;
      assert exact[..n + 1] == exact[..n] + "\0";
      assert p.buffer[..n + 1] == p.buffer[..n] + "\0";
    }
  }

  /**
    A tree that is printed and parsed comes back as a new tree that represents the same value. The text has been
    freed; the new tree is all that is left allocated, and nothing is if an allocation has failed.
   */
  method PrintAndParse(h: Heap, item: Item, fmt: bool, ghost sh: Shape, ghost v: Json)
    returns (copy: Item?, ghost owned: seq<Shape>)
    requires Is(sh) && Holds(sh, v) && Printable(v) && item == sh.node && h !in sh.foot
    modifies h
    ensures Accounted(copy != null, false, old(h.failures), h.failures)
    ensures copy == null ==> h.live == old(h.live)
    ensures copy != null ==>
      && |owned| == 1 && Forward(copy, owned) && IsAll(owned) && Holds(owned[0], v)
      && fresh(owned[0].foot) && h.live == old(h.live) + owned[0].foot
  {
    hide Is, Holds, FootAll, Print, Printable, Parser.ParseText;
    copy, owned := null, [];
    var out := ExactPrinter.PrintValue(h, item, 0, fmt, sh, v);
    if out == null {
      return;
    }
    ParsePrinted(v, 0, fmt, true);
    var n := StrLen(out, Print(v, 0, fmt));
    var end;
    copy, end, owned := ItemParser.ParseWithOpts(h, out[..n], true);
    h.Free(out);
  }

  /** What a parse has allocated is freed by deleting its result. */
  method ParseAndDelete(h: Heap, text: string, requireEnd: bool)
    requires !Parser.ParseText(text, requireEnd).Outside?
    modifies h
    ensures h.live == old(h.live)
  {
    hide Is, Holds, Parser.ParseText;
    var c, _, owned := ItemParser.ParseWithOpts(h, text, requireEnd);
    if c != null {
      OneShape(owned);
      Delete(h, c, owned);
    }
  }

  lemma OneShape(owned: seq<Shape>)
    requires |owned| == 1
    ensures FootAll(owned) == owned[0].foot
  {
    FootOne(owned[0]);
    assert owned == [owned[0]];
  }
}
