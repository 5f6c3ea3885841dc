/** The passes of `print_string_ptr`: does the string need escapes, how long is it with them, and writing it. */
module StringEncoder {
  import opened Memory
  import opened StringToken

  /** `memcpy`, or `strcpy` and `sprintf` up to their terminator. */
  method Store(out: array<char>, at: nat, s: string)
    requires at + |s| <= out.Length
    modifies out
    ensures out[..at + |s|] == old(out[..at]) + s && out[at + |s|..] == old(out[at + |s|..])
  {
    ghost var before, tail := out[..at], out[at + |s|..];
    forall i | 0 <= i < |s| {
      out[at + i] := s[i];
    }
    assert out[..at] == before && out[at..at + |s|] == s && out[at + |s|..] == tail;
    assert out[..at + |s|] == out[..at] + out[at..at + |s|];
  }

  /** `s` is written at `at`, perhaps with its terminator; what was to come is to come behind it. */
  method StoreNext(out: array<char>, at: nat, s: string, end: string, ghost rest: string, ghost whole: string)
    returns (ptr: nat)
    requires at <= out.Length && out[..at] + (s + rest) == whole && |whole| < out.Length && |end| <= 1
    modifies out
    ensures ptr == at + |s| <= |whole| && out[..ptr] + rest == whole && (end != "" ==> out[ptr] == end[0])
  {
    ghost var was := out[..at];
    assert was + s + rest == was + (s + rest);
    Store(out, at, s + end);
    ptr := at + |s|;
    assert out[..ptr] == out[..at + |s + end|][..ptr] == was + s;
    assert end != "" ==> out[..at + |s + end|][ptr] == end[0];
  }

  predicate NeedsEscape(c: char) {
    c < ' ' || c == '\"' || c == '\\'
  }

  lemma {:induction false} PlainText(s: string)
    requires '\0' !in s && forall i :: 0 <= i < |s| ==> !NeedsEscape(s[i])
    ensures Quote(s) == "\"" + (s + "\"")
  {
    PlainUnits(s);
  }

  lemma {:induction false} PlainUnits(s: string)
    requires '\0' !in s && forall i :: 0 <= i < |s| ==> !NeedsEscape(s[i])
    ensures Emit(EscapedAll(s), "\"") == s + "\""
  {
    hide Escaped, NeedsEscape;
    if s != "" {
      PlainUnits(s[1..]);
      EscapedPlain(s[0]);
      assert EscapedAll(s)[1..] == EscapedAll(s[1..]);
      assert s + "\"" == [s[0]] + (s[1..] + "\"");
    } else {
      assert s + "\"" == "\"";
    }
  }

  lemma EscapedPlain(c: char)
    requires !NeedsEscape(c)
    ensures UnitText(Escaped(c)) == [c]
  {
  }

  /** The bytes of the escaped string from `i` on and the closing quote. */
  function Unwritten(s: string, i: nat): string
    requires i <= |s|
  {
    Emit(EscapedAll(s[i..]), "\"")
  }

  lemma NextByte(s: string, i: nat)
    requires i < |s|
    ensures Unwritten(s, i) == UnitText(Escaped(s[i])) + Unwritten(s, i + 1)
  {
    assert s[i..][1..] == s[i + 1..];
    assert EscapedAll(s[i..])[1..] == EscapedAll(s[i + 1..]);
  }

  lemma LastByte(s: string)
    ensures Unwritten(s, |s|) == "\""
  {
  }

  /** Whether some byte needs an escape. */
  method FindEscape(str: array<char>, ghost s: string) returns (len: nat, flag: bool)
    requires HoldsText(str, s)
    ensures len == |s| && (flag <==> exists i :: 0 <= i < |s| && NeedsEscape(s[i]))
  {
    len, flag := 0, false;
    while str[len] != '\0'
      invariant len <= |s|
      invariant flag <==> exists i :: 0 <= i < len && NeedsEscape(s[i])
      decreases |s| - len
    {
      assert str[len] == str[..|s|][len];
      flag := flag || str[len] < ' ' || str[len] == '\"' || str[len] == '\\';
      len := len + 1;
    }
  }

  /** A byte that is escaped with a letter or for itself. */
  predicate HasLetter(c: char) {
    c == '\\' || c == '\"' || c == '\U{08}' || c == '\U{0C}' || c == '\n' || c == '\r' || c == '\t'
  }

  lemma EscapedLength(c: char)
    ensures |UnitText(Escaped(c))| == if HasLetter(c) then 2 else if c < ' ' then 6 else 1
  {
  }

  /** The number of bytes between the quotes. */
  method CountEscaped(str: array<char>, ghost s: string) returns (len: nat)
    requires HoldsText(str, s)
    ensures len + 2 == |Quote(s)|
  {
    hide Unwritten, UnitText, Escaped, Quote, HasLetter;
    var ptr := 0;
    len := 0;
    FirstByte(s);
    while str[ptr] != '\0'
      invariant ptr <= |s| && len + |Unwritten(s, ptr)| == |Unwritten(s, 0)|
      decreases |s| - ptr
    {
      var token := str[ptr];
      assert token == str[..|s|][ptr];
      NextByte(s, ptr);
      EscapedLength(token);
      len := len + 1;
      if HasLetter(token) {
        len := len + 1;
      } else if token < ' ' {
        len := len + 5;
      }
      ptr := ptr + 1;
    }
    LastByte(s);
  }

  lemma FirstByte(s: string)
    ensures Quote(s) == "\"" + Unwritten(s, 0)
  {
    assert s[0..] == s;
  }

  /** Writes the quoted string and a terminator at `base`; what stands before `base` is kept. */
  method WriteEscaped(str: array<char>, ghost s: string, out: array<char>, base: nat)
    requires HoldsText(str, s) && str != out
    requires base + |Quote(s)| < out.Length
    modifies out
    ensures out[..base + |Quote(s)|] == old(out[..base]) + Quote(s) && out[base + |Quote(s)|] == '\0'
  {
    hide Unwritten, Quote;
    ghost var before := out[..base];
    FirstByte(s);
    Store(out, base, "\"");
    var ptr, ptr2 := 0, base + 1;
    assert before + "\"" + Unwritten(s, 0) == before + ("\"" + Unwritten(s, 0));
    while str[ptr] != '\0'
      invariant ptr <= |s| && HoldsText(str, s)
      invariant base < ptr2 && ptr2 + |Unwritten(s, ptr)| == base + |Quote(s)|
      invariant out[..ptr2] + Unwritten(s, ptr) == before + Quote(s)
      decreases |s| - ptr
    {
      ptr2 := WriteNext(str, s, ptr, out, ptr2);
      ptr := ptr + 1;
    }
    LastByte(s);
    Store(out, ptr2, "\"\0");
    assert out[..ptr2 + 2][..ptr2 + 1] == out[..ptr2 + 1];
  }

  method WriteNext(str: array<char>, ghost s: string, ptr: nat, out: array<char>, at: nat) returns (ptr2: nat)
    requires HoldsText(str, s) && str != out && ptr < |s| && at + |Unwritten(s, ptr)| < out.Length
    modifies out
    ensures at < ptr2 && ptr2 + |Unwritten(s, ptr + 1)| == at + |Unwritten(s, ptr)|
    ensures out[..ptr2] + Unwritten(s, ptr + 1) == old(out[..at]) + Unwritten(s, ptr)
  {
    hide Unwritten, Escaped, UnitText, EscapedAll;
    assert str[ptr] == str[..|s|][ptr];
    NextByte(s, ptr);
    SomeByte(s, ptr + 1);
    ghost var was := out[..at];
    ptr2 := WriteByte(out, at, str[ptr], Unwritten(s, ptr + 1));
    assert was + UnitText(Escaped(s[ptr])) + Unwritten(s, ptr + 1)
      == was + (UnitText(Escaped(s[ptr])) + Unwritten(s, ptr + 1));
  }

  lemma SomeByte(s: string, i: nat)
    requires i <= |s|
    ensures Unwritten(s, i) != ""
  {
  }

  /** Writes one byte of the string; `more` is still to come. */
  method WriteByte(out: array<char>, at: nat, c: char, ghost more: string) returns (ptr2: nat)
    requires c != '\0' && more != "" && at + |UnitText(Escaped(c))| + |more| < out.Length
    modifies out
    ensures ptr2 == at + |UnitText(Escaped(c))| && out[..ptr2] == old(out[..at]) + UnitText(Escaped(c))
  {
    if c >= ' ' && c != '\"' && c != '\\' {
      Store(out, at, [c]);
      ptr2 := at + 1;
    } else if HasLetter(c) {
      var letter := Letter(c);
      Store(out, at, "\\");
      Store(out, at + 1, [letter]);
      ptr2 := at + 2;
    } else {
      ptr2 := WriteCode(out, at, c);
    }
  }

  /** The letter behind the backslash. */
  function Letter(c: char): char {
    if c == '\U{08}' then 'b'
    else if c == '\U{0C}' then 'f'
    else if c == '\n' then 'n'
    else if c == '\r' then 'r'
    else if c == '\t' then 't'
    else c
  }

  /** A control byte without a letter; a terminator is written behind it. */
  method WriteCode(out: array<char>, at: nat, c: char) returns (ptr2: nat)
    requires Escaped(c).Code? && at + 7 <= out.Length
    modifies out
    ensures ptr2 == at + 6 == at + |UnitText(Escaped(c))| && out[..ptr2] == old(out[..at]) + UnitText(Escaped(c))
  {
    CodeText(c);
    ghost var was := out[..at];
    Store(out, at, "\\");
    Store(out, at + 1, ['u', '0', '0', LowerHex(c as int / 16), LowerHex(c as int % 16), '\0']);
    ptr2 := at + 6;
    hide Escaped, UnitText, LowerHex;
    assert out[..ptr2] == out[..ptr2 + 1][..ptr2];
    assert was + UnitText(Escaped(c)) ==
      (was + "\\" + ['u', '0', '0', LowerHex(c as int / 16), LowerHex(c as int % 16), '\0'])[..ptr2];
  }

  lemma CodeText(c: char)
    requires Escaped(c).Code?
    ensures c < ' '
    ensures UnitText(Escaped(c)) == "\\" + ['u', '0', '0', LowerHex(c as int / 16), LowerHex(c as int % 16)]
  {
    hide LowerHex;
  }

  /** The quoted string when no byte needs an escape. */
  method WritePlain(s: string, out: array<char>, base: nat)
    requires base + |s| + 2 < out.Length
    modifies out
    ensures var q := "\"" + (s + "\""); out[..base + |q|] == old(out[..base]) + q && out[base + |q|] == '\0'
  {
    Store(out, base, "\"");
    Store(out, base + 1, s);
    Store(out, base + 1 + |s|, "\"\0");
    assert out[..base + |s| + 2] == out[..base + |s| + 3][..base + |s| + 2];
  }
}
