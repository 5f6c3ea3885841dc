/** `strsub_Replace`, and the passes of `_msgBuild_buildMsg` over the table of tokens. */
module MessageBuilder {
  import opened Memory
  import opened MessageTable
  import opened Options
  import opened Sequences
  import opened Substitution
  import StringEncoder

  /** The place of the first occurrence, or -1. */
  function Find(s: string, rep: string): (r: int)
    requires rep != ""
    ensures -1 <= r && (r >= 0 ==> r + |rep| <= |s| && rep <= s[r..])
  {
    if s == "" then -1
    else if rep <= s then (assert s[0..] == s; 0)
    else
      var r := Find(s[1..], rep);
      assert r >= 0 ==> s[1..][r..] == s[r + 1..];
      if r < 0 then -1 else r + 1
  }

  /** The string occurs nowhere before the place that is found, and nowhere if none is. */
  lemma {:induction false} FindFirst(s: string, rep: string, j: nat)
    requires rep != "" && j < (if Find(s, rep) < 0 then |s| else Find(s, rep))
    ensures !(rep <= s[j..])
  {
    if j == 0 {
      assert s[0..] == s;
    } else {
      FindFirst(s[1..], rep, j - 1);
      assert s[1..][j - 1..] == s[j..];
    }
  }

  lemma FindHere(s: string, rep: string)
    requires rep != ""
    ensures rep <= s ==> Find(s, rep) == 0
    ensures s == "" ==> Find(s, rep) == -1
  {
  }

  lemma FindNext(s: string, rep: string)
    requires rep != "" && s != "" && !(rep <= s)
    ensures Find(s, rep) == if Find(s[1..], rep) < 0 then -1 else 1 + Find(s[1..], rep)
  {
  }

  /** The place of the first occurrence from `p` on, or -1. */
  function FindFrom(s: string, p: nat, rep: string): (r: int)
    requires rep != "" && p <= |s|
    ensures r == -1 || p <= r <= |s| - |rep|
  {
    if Find(s[p..], rep) < 0 then -1 else p + Find(s[p..], rep)
  }

  lemma FindFromStep(s: string, p: nat, rep: string)
    requires rep != "" && p <= |s|
    ensures rep <= s[p..] ==> FindFrom(s, p, rep) == p
    ensures p == |s| ==> FindFrom(s, p, rep) == -1
    ensures p < |s| && !(rep <= s[p..]) ==> FindFrom(s, p, rep) == FindFrom(s, p + 1, rep)
  {
    hide Find;
    FindHere(s[p..], rep);
    if p < |s| && !(rep <= s[p..]) {
      FindNext(s[p..], rep);
      SuffixPart(s, p, 1);
    }
  }

  /** The occurrences from `p` on, each searched for behind the one before. */
  function Count(s: string, p: nat, rep: string): nat
    requires rep != "" && p <= |s|
    decreases |s| - p
  {
    var r := FindFrom(s, p, rep);
    if r < 0 then 0 else 1 + Count(s, r + |rep|, rep)
  }

  /** The replacement is leftmost: what stands before the first occurrence is copied. */
  lemma {:induction false} ReplacedAtFind(s: string, rep: string, with: string)
    requires rep != ""
    ensures var i := Find(s, rep);
      Replaced(s, rep, with) == if i < 0 then s else s[..i] + (with + Replaced(s[i + |rep|..], rep, with))
  {
    hide Find, Replaced;
    FindHere(s, rep);
    if s == "" {
      NothingReplaced(rep, with);
    } else if rep <= s {
      ReplacedHere(s, rep, with);
      assert s[0 + |rep|..] == s[|rep|..] && s[..0] == "";
    } else {
      ReplacedAtFind(s[1..], rep, with);
      FindNext(s, rep);
      assert s == [s[0]] + s[1..];
      Step(s, s[0], s[1..], rep, with);
      var i := Find(s, rep);
      if i >= 0 {
        assert s[1..][i - 1 + |rep|..] == s[i + |rep|..];
        assert s[..i] == [s[0]] + s[1..][..i - 1];
        Regroup([s[0]], s[1..][..i - 1], with + Replaced(s[i + |rep|..], rep, with));
      }
    }
  }

  lemma ReplacedHere(s: string, rep: string, with: string)
    requires rep != "" && rep <= s
    ensures Replaced(s, rep, with) == "" + (with + Replaced(s[|rep|..], rep, with))
  {
    hide Replaced;
    Hit(s, s[|rep|..], rep, with);
  }

  /** A text in memory, byte by byte. */
  lemma TextAt(a: array<char>, s: string, i: nat)
    requires HoldsText(a, s) && i <= |s|
    ensures i < |s| ==> a[i] == s[i]
    ensures a[i] == '\0' <==> i == |s|
  {
    assert i < |s| ==> a[i] == a[..|s|][i];
  }

  /** `strstr`, from a place on. */
  method StrStr(a: array<char>, from: nat, rep: string, ghost s: string) returns (r: int)
    requires HoldsText(a, s) && from <= |s| && rep != "" && '\0' !in rep
    ensures r == FindFrom(s, from, rep)
  {
    hide FindFrom;
    var p := from;
    TextAt(a, s, p);
    while a[p] != '\0'
      invariant from <= p <= |s| && (a[p] == '\0' <==> p == |s|) && FindFrom(s, from, rep) == FindFrom(s, p, rep)
      decreases |s| - p
    {
      FindFromStep(s, p, rep);
      var here := Matches(a, p, rep, s);
      if here {
        return p;
      }
      p := p + 1;
      TextAt(a, s, p);
    }
    FindFromStep(s, p, rep);
    r := -1;
  }

  method Matches(a: array<char>, p: nat, rep: string, ghost s: string) returns (here: bool)
    requires HoldsText(a, s) && p <= |s| && '\0' !in rep
    ensures here == (rep <= s[p..])
  {
    var i := 0;
    while i < |rep| && a[p + i] == rep[i]
      invariant i <= |rep| && p + i <= |s| && rep[..i] <= s[p..]
    {
      TextAt(a, s, p + i);
      i := i + 1;
    }
    TextAt(a, s, p + i);
    here := i == |rep|;
  }

  /** The first pass counts. */
  method CountPass(orig: array<char>, rep: string, ghost s: string) returns (count: nat)
    requires HoldsText(orig, s) && rep != "" && '\0' !in rep
    ensures count == Count(s, 0, rep)
  {
    hide FindFrom;
    var ins := 0;
    count := 0;
    assert s[0..] == s;
    var tmp := StrStr(orig, ins, rep, s);
    while tmp >= 0
      invariant 0 <= ins <= |s| && count + Count(s, ins, rep) == Count(s, 0, rep)
      invariant tmp == FindFrom(s, ins, rep)
      decreases |s| - ins, tmp
    {
      count := count + 1;
      ins := tmp + |rep|;
      tmp := StrStr(orig, ins, rep, s);
    }
  }

  /** `strsub_Replace`: the destination holds the text with every occurrence replaced, leftmost first. */
  method Replace(dest: array<char>, orig: array<char>, rep: string, with: Option<string>, ghost s: string)
    requires HoldsText(orig, s) && dest != orig && rep != "" && '\0' !in rep && '\0' !in ValueOf(with)
    requires |Replaced(s, rep, ValueOf(with))| < dest.Length
    modifies dest
    ensures HoldsText(dest, Replaced(s, rep, ValueOf(with)))
  {
    hide *;
    var text := ValueOf(with);
    ghost var whole := Replaced(s, rep, text);
    var count := CountPass(orig, rep, s);
    var o, tmp := 0, 0;
    assert s[0..] == s && dest[..0] + whole == whole;
    while count > 0
      invariant 0 <= o <= |s| && 0 <= tmp <= |whole| && HoldsText(orig, s)
      invariant count == Count(s, o, rep) && dest[..tmp] + Replaced(s[o..], rep, text) == whole
      decreases count
    {
      o, tmp := ReplaceOne(dest, orig, rep, text, o, tmp, s, whole);
      count := count - 1;
    }
    CopyRest(dest, orig, rep, text, o, tmp, s, whole);
  }

  /** The text up to the next occurrence is copied, and then what the occurrence is replaced with. */
  method ReplaceOne(dest: array<char>, orig: array<char>, rep: string, text: string, o: nat, at: nat, ghost s: string,
                    ghost whole: string)
    returns (o': nat, ptr: nat)
    requires HoldsText(orig, s) && dest != orig && rep != "" && '\0' !in rep && o <= |s| && |whole| < dest.Length
    requires Count(s, o, rep) > 0 && at <= |whole| && dest[..at] + Replaced(s[o..], rep, text) == whole
    modifies dest
    ensures o' <= |s| && Count(s, o', rep) == Count(s, o, rep) - 1
    ensures ptr <= |whole| && dest[..ptr] + Replaced(s[o'..], rep, text) == whole
  {
    hide Replaced, FindFrom, HoldsText;
    var ins := StrStr(orig, o, rep, s);
    ReplacedStep(s, o, rep, text);
    TextSlice(orig, s, o, ins);
    ghost var rest := Replaced(s[ins + |rep|..], rep, text);
    ptr := StringEncoder.StoreNext(dest, at, orig[o..ins], "", text + rest, whole);
    ptr := StringEncoder.StoreNext(dest, ptr, text, "\0", rest, whole);
    o' := ins + |rep|;
  }

  /** What stands behind the last occurrence is copied with its terminator. */
  method CopyRest(dest: array<char>, orig: array<char>, rep: string, text: string, o: nat, at: nat, ghost s: string,
                  ghost whole: string)
    requires HoldsText(orig, s) && dest != orig && rep != "" && '\0' !in text && o <= |s| && |whole| < dest.Length
    requires Count(s, o, rep) == 0 && at <= |whole| && dest[..at] + Replaced(s[o..], rep, text) == whole
    requires whole == Replaced(s, rep, text)
    modifies dest
    ensures HoldsText(dest, whole)
  {
    hide Replaced, FindFrom;
    ReplacedStep(s, o, rep, text);
    var n := StrLen(orig, s);
    TextSlice(orig, s, o, n);
    assert s[o..n] == s[o..] && s[o..] + "" == s[o..];
    var tmp := StringEncoder.StoreNext(dest, at, orig[o..n], "", "", whole);
    assert dest[..tmp] + "" == dest[..tmp];
    StringEncoder.Store(dest, tmp, "\0");
    NoNulLeft(s, rep, text, dest, tmp);
  }

  lemma TextSlice(a: array<char>, s: string, i: nat, j: nat)
    requires HoldsText(a, s) && i <= j <= |s|
    ensures j < a.Length && a[i..j] == s[i..j]
  {
    forall k | i <= k < j
      ensures a[k] == s[k]
    {
      TextAt(a, s, k);
    }
  }

  lemma ReplacedStep(s: string, o: nat, rep: string, with: string)
    requires rep != "" && o <= |s|
    ensures var r := FindFrom(s, o, rep);
      Replaced(s[o..], rep, with) == if r < 0 then s[o..] else s[o..r] + (with + Replaced(s[r + |rep|..], rep, with))
  {
    hide Find, Replaced;
    ReplacedAtFind(s[o..], rep, with);
    var i := Find(s[o..], rep);
    if i >= 0 {
      SuffixPart(s, o, i);
      SuffixPart(s, o, i + |rep|);
    }
  }

  lemma NoNulLeft(s: string, rep: string, with: string, dest: array<char>, n: nat)
    requires rep != "" && '\0' !in s && '\0' !in with && n < dest.Length && dest[..n + 1] == Replaced(s, rep, with) + "\0"
    ensures HoldsText(dest, Replaced(s, rep, with))
  {
    ReplacedNoNul(s, rep, with);
    assert dest[..n] == dest[..n + 1][..n];
    assert dest[n] == dest[..n + 1][n];
  }

  // ---------- The passes ----------

  /**
    `_msgBuild_buildMsg`: after any number of passes, odd or even, the output holds the text with the tokens replaced
    one after the other. The buffers take turns; the template is only read.
   */
  method BuildMsg(outbuf: array<char>, template: array<char>, maxLen: nat, table: seq<Replacement>, ghost s: string)
    requires outbuf != template && HoldsText(template, s) && table != [] && ValidTable(table)
    requires maxLen <= outbuf.Length && forall n :: 0 < n <= |table| ==> |After(s, table, n)| < maxLen
    modifies outbuf
    ensures HoldsText(outbuf, After(s, table, |table|)) && HoldsText(template, s)
  {
    hide After, HoldsText;
    var buf2 := new char[maxLen];
    var orig, dest, first, i := template, buf2, true, 0;
    NextPass(s, table, 0);
    while i < |table|
      invariant 0 <= i <= |table| && (first <==> i == 0)
      invariant HoldsText(template, s) && HoldsText(orig, After(s, table, i))
      invariant if first then orig == template && dest == buf2 else {orig, dest} == {buf2, outbuf}
      invariant orig != dest && dest.Length >= maxLen && fresh(buf2)
    {
      NextPass(s, table, i);
      Replace(dest, orig, table[i].match', table[i].replace, After(s, table, i));
      if first {
        orig := outbuf;
        first := false;
      }
      orig, dest := dest, orig;
      i := i + 1;
    }
    if orig != outbuf {
      Copy(outbuf, buf2, After(s, table, |table|));
    }
  }

  /** `strcpy` */
  method Copy(dest: array<char>, from: array<char>, ghost s: string)
    requires HoldsText(from, s) && dest != from && |s| < dest.Length
    modifies dest
    ensures HoldsText(dest, s)
  {
    var n := StrLen(from, s);
    StringEncoder.Store(dest, 0, from[..n] + "\0");
    assert dest[..n] == dest[..n + 1][..n] && dest[n] == dest[..n + 1][n];
  }
}
