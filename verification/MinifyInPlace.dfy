/** The in-place algorithm of `cJSON_Minify`. */
module MinifyInPlace {
  import opened CString
  import opened Minifier

  /** `n` is the position of the terminator. */
  predicate Terminated(a: array<char>, n: int)
    reads a
  {
    0 <= n < a.Length && a[n] == '\0' && forall k :: 0 <= k < n ==> a[k] != '\0'
  }

  /**
    The writing position `into` never passes the reading position `json`, what is unread is untouched, and the bytes
    written so far together with the minified rest make up the result.
   */
  ghost predicate Inv(a: array<char>, text: string, was: seq<char>, into: int, json: int, rest: string)
    reads a
  {
    && |was| == a.Length && |text| < a.Length && was[|text|] == '\0' && was[..|text|] == text && '\0' !in text
    && 0 <= into <= json <= |text|
    && a[into..] == was[into..]
    && a[..into] + rest == Minified(text)
  }

  lemma AtUnread(a: array<char>, text: string, was: seq<char>, into: int, json: int, rest: string)
    requires 0 <= json <= |text| && Inv(a, text, was, into, json, rest)
    ensures json < a.Length && a[json] == Head(text[json..])
    ensures json < |text| ==>
      && json + 1 < a.Length && a[json] == text[json] && a[json] != '\0'
      && text[json..][1..] == text[json + 1..] && a[json + 1] == Head(text[json + 1..])
  {
    assert a[json] == a[into..][json - into];
    if json < |text| {
      assert a[json] == was[..|text|][json];
      assert a[json + 1] == a[into..][json + 1 - into];
      if json + 1 < |text| {
        assert a[json + 1] == was[..|text|][json + 1];
      }
    }
  }

  /** The cases of the outer loop, for a text that starts with `c` followed by `s`. */
  lemma Cases(c: char, s: string)
    requires c != '\0' && Tidy([c] + s)
    ensures BlankChar(c) ==> Minified([c] + s) == Minified(s) && Tidy(s)
    ensures c == '\"' ==> Minified([c] + s) == [c] + MinifiedString(s) && TidyString(s)
    ensures !BlankChar(c) && c != '\"' && !(c == '/' && (Head(s) == '/' || Head(s) == '*')) ==>
      Minified([c] + s) == [c] + Minified(s) && Tidy(s)
  {
    assert ([c] + s)[1..] == s;
  }

  /** `*into++ = *json++` */
  method CopyByte(a: array<char>, ghost text: string, ghost was: seq<char>, into: int, json: int, ghost rest: string)
    requires 0 <= json < |text| && Inv(a, text, was, into, json, [text[json]] + rest)
    modifies a
    ensures Inv(a, text, was, into + 1, json + 1, rest)
  {
    AtUnread(a, text, was, into, json, [text[json]] + rest);
    ghost var done := a[..into];
    a[into] := a[json];
    assert a[..into + 1] == done + [text[json]];
    assert done + ([text[json]] + rest) == done + [text[json]] + rest;
    assert a[into + 1..] == was[into + 1..] by {
      assert forall k :: into < k < a.Length ==> a[k] == was[into..][k - into];
    }
  }

  method Minify(a: array<char>, ghost n: nat)
    requires Terminated(a, n) && Tidy(a[..n])
    modifies a
    ensures var r := Minified(old(a[..n]));
      |r| <= n && a[..|r|] == r && a[|r|..] == ['\0'] + old(a[|r| + 1..])
  {
    ghost var text, was := a[..n], a[..];
    var into, json := 0, 0;
    assert a[..0] + Minified(text) == Minified(text);
    assert text[0..] == text;
    into := MinifyAll(a, text, was);
    assert a[..into] + "" == a[..into];
    ghost var tail := a[into + 1..];
    assert tail == was[into + 1..] by {
      assert forall k :: into < k < a.Length ==> a[k] == a[into..][k - into];
    }
    a[into] := '\0';
    assert a[into..] == ['\0'] + tail;
  }

  /** The loop of `cJSON_Minify`. */
  method MinifyAll(a: array<char>, ghost text: string, ghost was: seq<char>) returns (into: int)
    requires Inv(a, text, was, 0, 0, Minified(text)) && Tidy(text)
    modifies a
    ensures Inv(a, text, was, into, |text|, "")
  {
    hide Inv, Minified, Tidy;
    var json := 0;
    into := 0;
    assert text[0..] == text;
    AtUnread(a, text, was, into, json, Minified(text));
    while a[json] != '\0'
      invariant 0 <= json <= |text| && json < a.Length && a[json] == Head(text[json..])
      invariant Inv(a, text, was, into, json, Minified(text[json..])) && Tidy(text[json..])
      decreases |text| - json
    {
      into, json := MinifyStep(a, text, was, into, json);
      AtUnread(a, text, was, into, json, Minified(text[json..]));
    }
    AtUnread(a, text, was, into, json, Minified(text[json..]));
    MinifiedEnd(text, json);
  }

  lemma MinifiedEnd(text: string, json: int)
    requires json == |text|
    ensures Minified(text[json..]) == ""
  {
  }

  method MinifyStep(a: array<char>, ghost text: string, ghost was: seq<char>, into0: int, start: int)
    returns (into: int, json: int)
    requires 0 <= start < |text| && Inv(a, text, was, into0, start, Minified(text[start..])) && Tidy(text[start..])
    modifies a
    ensures start < json <= |text| && Inv(a, text, was, into, json, Minified(text[json..])) && Tidy(text[json..])
  {
    hide Inv, Minified, Tidy;
    into, json := into0, start;
    AtUnread(a, text, was, into, json, Minified(text[json..]));
    assert text[json..] == [text[json]] + text[json + 1..];
    Cases(text[json], text[json + 1..]);
    if a[json] == ' ' || a[json] == '\t' || a[json] == '\r' || a[json] == '\n' {
      SkipByte(a, text, was, into, json, Minified(text[json..]));
      json := json + 1;
    } else if a[json] == '/' && a[json + 1] == '/' {
      json := SkipLine(a, text, was, into, json);
    } else if a[json] == '/' && a[json + 1] == '*' {
      json := SkipComment(a, text, was, into, json);
    } else if a[json] == '\"' {
      into, json := CopyString(a, text, was, into, json);
    } else {
      CopyByte(a, text, was, into, json, Minified(text[json + 1..]));
      into, json := into + 1, json + 1;
    }
  }

  lemma SkipByte(a: array<char>, text: string, was: seq<char>, into: int, json: int, rest: string)
    requires 0 <= json < |text| && Inv(a, text, was, into, json, rest)
    ensures Inv(a, text, was, into, json + 1, rest)
  {
  }

  method SkipLine(a: array<char>, ghost text: string, ghost was: seq<char>, into: int, start: int) returns (json: int)
    requires 0 <= start <= |text| && Inv(a, text, was, into, start, Minified(text[start..])) && Tidy(text[start..])
    requires StartsWith(text[start..], '/', '/')
    ensures start < json <= |text| && Inv(a, text, was, into, json, Minified(text[json..])) && Tidy(text[json..])
  {
    json := start;
    ghost var rest := Minified(text[start..]);
    assert text[start..][1..] == text[start + 1..];
    AtUnread(a, text, was, into, json, rest);
    while a[json] != '\0' && a[json] != '\n'
      invariant start <= json <= |text| && DropLine(text[json..]) == DropLine(text[start + 1..])
      invariant json == start ==> a[json] == '/'
      decreases |text| - json
    {
      AtUnread(a, text, was, into, json, rest);
      json := json + 1;
    }
    AtUnread(a, text, was, into, json, rest);
  }

  method SkipComment(a: array<char>, ghost text: string, ghost was: seq<char>, into: int, start: int) returns (json: int)
    requires 0 <= start <= |text| && Inv(a, text, was, into, start, Minified(text[start..])) && Tidy(text[start..])
    requires StartsWith(text[start..], '/', '*')
    ensures start < json <= |text| && Inv(a, text, was, into, json, Minified(text[json..])) && Tidy(text[json..])
  {
    json := start;
    ghost var rest := Minified(text[start..]);
    assert text[start..][1..] == text[start + 1..];
    AtUnread(a, text, was, into, json, rest);
    while a[json] != '\0' && !(a[json] == '*' && a[json + 1] == '/')
      invariant start <= json <= |text|
      invariant Ends(text[json..]) && DropComment(text[json..]) == DropComment(text[start + 1..])
      decreases |text| - json
    {
      AtUnread(a, text, was, into, json, rest);
      json := json + 1;
    }
    AtUnread(a, text, was, into, json, rest);
    assert text[json..][2..] == text[json + 2..];
    json := json + 2;
  }

  method CopyString(a: array<char>, ghost text: string, ghost was: seq<char>, into0: int, start: int)
    returns (into: int, json: int)
    requires 0 <= start < |text| && Inv(a, text, was, into0, start, ['\"'] + MinifiedString(text[start + 1..]))
    requires text[start] == '\"' && TidyString(text[start + 1..])
    modifies a
    ensures start < json <= |text| && Inv(a, text, was, into, json, Minified(text[json..])) && Tidy(text[json..])
  {
    hide Inv, MinifiedString, TidyString;
    into, json := into0, start;
    CopyByte(a, text, was, into, json, MinifiedString(text[json + 1..]));
    into, json := into + 1, json + 1;
    AtUnread(a, text, was, into, json, MinifiedString(text[json..]));
    while a[json] != '\0' && a[json] != '\"'
      invariant start < json <= |text| && json < a.Length && a[json] == Head(text[json..])
      invariant Inv(a, text, was, into, json, MinifiedString(text[json..])) && TidyString(text[json..])
      decreases |text| - json
    {
      into, json := CopyStringByte(a, text, was, into, json);
      AtUnread(a, text, was, into, json, MinifiedString(text[json..]));
    }
    StringCases(text, json);
    CopyByte(a, text, was, into, json, Minified(text[json + 1..]));
    into, json := into + 1, json + 1;
  }

  /** One byte inside a string, or an escape with the byte behind it. */
  method CopyStringByte(a: array<char>, ghost text: string, ghost was: seq<char>, into0: int, start: int)
    returns (into: int, json: int)
    requires 0 <= start < |text| && Inv(a, text, was, into0, start, MinifiedString(text[start..]))
    requires text[start] != '\"' && TidyString(text[start..])
    modifies a
    ensures start < json <= |text|
    ensures Inv(a, text, was, into, json, MinifiedString(text[json..])) && TidyString(text[json..])
  {
    hide Inv, MinifiedString, TidyString;
    into, json := into0, start;
    AtUnread(a, text, was, into, json, MinifiedString(text[json..]));
    StringCases(text, json);
    if a[json] == '\\' {
      StringEscape(text, json);
      CopyByte(a, text, was, into, json, [text[json + 1]] + MinifiedString(text[json + 2..]));
      into, json := into + 1, json + 1;
    }
    CopyByte(a, text, was, into, json, MinifiedString(text[json + 1..]));
    into, json := into + 1, json + 1;
  }

  /** The cases of the loop inside a string. */
  lemma StringCases(text: string, json: int)
    requires 0 <= json <= |text| && TidyString(text[json..])
    ensures json < |text| && text[json] != '\0'
    ensures text[json] == '\"' ==>
      Tidy(text[json + 1..]) && MinifiedString(text[json..]) == ['\"'] + Minified(text[json + 1..])
    ensures text[json] != '\"' && text[json] != '\\' ==>
      TidyString(text[json + 1..]) && MinifiedString(text[json..]) == [text[json]] + MinifiedString(text[json + 1..])
  {
    assert text[json..][1..] == text[json + 1..];
  }

  lemma StringEscape(text: string, json: int)
    requires 0 <= json < |text| && TidyString(text[json..]) && text[json] == '\\'
    ensures json + 1 < |text| && TidyString(text[json + 2..])
    ensures MinifiedString(text[json..]) == [text[json]] + ([text[json + 1]] + MinifiedString(text[json + 2..]))
  {
    var s := text[json..];
    assert s[1..] == text[json + 1..];
    assert s[2..] == text[json + 2..];
    assert s[..2] == [text[json]] + [text[json + 1]];
  }
}
