/** The two passes of `parse_string`: a scan that counts, and a scan that decodes into a block of that size. */
module StringDecoder {
  import opened Bits
  import opened CString
  import opened Memory
  import opened StringToken
  import Utf8Writer

  // ---------- The counting scan ----------

  /** The scan stays inside the text. */
  predicate Scans(s: string) {
    Head(s) == '\0' || s[0] == '\"' ||
    (if s[0] == '\\' then Head(s[1..]) != '\0' && Scans(s[2..]) else Scans(s[1..]))
  }

  /** What the scan counts. */
  function Count(s: string): nat
    requires Scans(s)
  {
    if Head(s) == '\0' || s[0] == '\"' then 0 else 1 + if s[0] == '\\' then Count(s[2..]) else Count(s[1..])
  }

  /** The text from where the scan stops. */
  function Stop(s: string): string
    requires Scans(s)
  {
    if Head(s) == '\0' || s[0] == '\"' then s else if s[0] == '\\' then Stop(s[2..]) else Stop(s[1..])
  }

  /** A token has room for its meaning: the scan stops where the token ends and counts at least its bytes. */
  lemma ScanToken(s: string)
    requires !Lex(s).Astray?
    ensures Scans(s) && Stop(s) == Ending(Lex(s))
    ensures |Meaning(Lex(s).units)| <= Count(s) && '\0' !in Meaning(Lex(s).units)
  {
    EmitLex(s);
    hide Lex;
    ScanUnits(Lex(s).units, Ending(Lex(s)));
    MeaningFits(Lex(s).units);
  }

  function Weight(us: seq<Unit>): nat {
    if us == [] then 0 else (if us[0].Code? then 5 else 1) + Weight(us[1..])
  }

  lemma {:induction false} ScanUnits(us: seq<Unit>, tail: string)
    requires AllWellFormed(us) && (Head(tail) == '\0' || tail[0] == '\"')
    ensures var s := Emit(us, tail); Scans(s) && Stop(s) == tail && Count(s) == Weight(us)
  {
    hide WellFormed, UnitText;
    if us != [] {
      ScanUnits(us[1..], tail);
      ScanUnit(us[0], Emit(us[1..], tail));
    }
  }

  lemma ScanUnit(u: Unit, t: string)
    requires WellFormed(u) && Scans(t)
    ensures var s := UnitText(u) + t;
      Scans(s) && Stop(s) == Stop(t) && Count(s) == (if u.Code? then 5 else 1) + Count(t)
  {
    match u
    case Plain(c) => assert ([c] + t)[1..] == t;
    case Escape(c) => ScanEscape(c, t);
    case Code(h) =>
      ScanOrdinary(h, t);
      ScanEscape('u', h + t);
      assert "\\u" + h + t == ['\\', 'u'] + (h + t);
  }

  lemma ScanEscape(c: char, t: string)
    requires c != '\0' && Scans(t)
    ensures var s := ['\\', c] + t; Scans(s) && Stop(s) == Stop(t) && Count(s) == 1 + Count(t)
  {
    var s := ['\\', c] + t;
    assert s[2..] == t && s[1..][0] == c;
  }

  lemma {:induction false} ScanOrdinary(h: string, t: string)
    requires (forall i :: 0 <= i < |h| ==> Ordinary(h[i])) && Scans(t)
    ensures Scans(h + t) && Stop(h + t) == Stop(t) && Count(h + t) == |h| + Count(t)
  {
    if h == "" {
      assert h + t == t;
    } else {
      assert Ordinary(h[0]);
      assert (h + t)[1..] == h[1..] + t;
      ScanOrdinary(h[1..], t);
    }
  }

  lemma {:induction false} MeaningFits(us: seq<Unit>)
    requires AllWellFormed(us)
    ensures |Meaning(us)| <= Weight(us) && '\0' !in Meaning(us)
  {
    if us != [] {
      assert WellFormed(us[0]);
      MeaningFits(us[1..]);
      if us[0].Code? && IsHigh(Hex4(us[0].hex)) && |us| > 1 && us[1].Code? {
        MeaningFits(us[2..]);
        assert us[1..][1..] == us[2..];
        assert Weight(us[1..]) == 5 + Weight(us[2..]);
      }
    }
  }

  // ---------- The decoding scan ----------

  /** `0x10000 + (((uc & 0x3FF) << 10) | (uc2 & 0x3FF))` */
  lemma PairBits(high: nat, low: nat)
    requires IsHigh(high) && IsLow(low)
    ensures 0x10000 + Or(And(high, 0x3FF) * 0x400, And(low, 0x3FF)) == FromPair(high, low)
  {
    hide And, Or, Pow2;
    var a, b := high - 0xD800, low - 0xDC00;
    LowTenBits(high);
    LowTenBits(low);
    assert And(high, 0x3FF) == a && And(low, 0x3FF) == b;
    OrTenBits(a, b);
  }

  lemma OrTenBits(a: nat, b: nat)
    requires b < 0x400
    ensures Or(a * 0x400, b) == a * 0x400 + b
  {
    PowTen();
    var p := Pow2(10);
    assert p * a == a * 0x400;
    OrSplit(10, a, 0, 0, b, a * 0x400, b);
    Utf8Writer.OrZero(a);
    Utf8Writer.OrZero(b);
  }

  lemma PowTen()
    ensures Pow2(10) == 0x400
  {
    Pow2Sum(5, 5);
  }

  lemma LowTenBits(x: nat)
    ensures And(x, 0x3FF) == x % 0x400
  {
    PowTen();
    AndSplit(10, x / 0x400, x % 0x400, 0, 0x3FF, x, 0x3FF);
    Utf8Writer.AndZero(x / 0x400);
    AndOnes(x % 0x400, 10);
  }

  /** At `s` the units `us` are still to be read; `tail` is what ends the token. */
  ghost predicate Unread(s: string, us: seq<Unit>, tail: string) {
    !Lex(s).Astray? && Lex(s).units == us && Ending(Lex(s)) == tail
  }

  lemma ReadPlain(s: string, us: seq<Unit>, tail: string)
    requires Unread(s, us, tail) && Head(s) != '\0' && s[0] != '\"' && s[0] != '\\'
    ensures us != [] && us[0] == Plain(s[0]) && Unread(s[1..], us[1..], tail)
  {
  }

  lemma ReadEscape(s: string, us: seq<Unit>, tail: string)
    requires Unread(s, us, tail) && Head(s) == '\\'
    ensures |s| > 1 && s[1] != '\0' && us != []
    ensures s[1] != 'u' ==> us[0] == Escape(s[1]) && Unread(s[2..], us[1..], tail)
    ensures s[1] == 'u' ==> |s| >= 6 && us[0] == Code(s[2..6]) && Unread(s[6..], us[1..], tail)
  {
  }

  /** A position behind `n` bytes of the text from `ptr` on. */
  lemma Shift(text: string, ptr: nat, n: nat)
    requires ptr + n <= |text|
    ensures text[ptr..][n..] == text[ptr + n..]
  {
  }

  /**
    The reading position is at a unit of the token, the bytes written so far and the meaning of the unread units
    make up the result, and that fits.
   */
  ghost predicate Inv(text: string, ptr: int, out: array<char>, ptr2: int, us: seq<Unit>, tail: string, all: string)
    reads out
  {
    && 0 <= ptr <= |text| && Unread(text[ptr..], us, tail)
    && 0 <= ptr2 <= out.Length && out[..ptr2] + Meaning(us) == all && |all| < out.Length
  }

  /** One step of the decoding loop at an escape; the reading position is at the backslash. */
  method DecodeEscape(text: string, start: nat, out: array<char>, at: nat, ghost us: seq<Unit>, ghost tail: string,
                      ghost all: string)
    returns (ptr: nat, ptr2: nat, ghost us': seq<Unit>)
    requires Inv(text, start, out, at, us, tail, all) && At(text, start) == '\\'
    modifies out
    ensures Inv(text, ptr, out, ptr2, us', tail, all) && ptr > start
  {
    hide Lex;
    ReadEscape(text[start..], us, tail);
    ptr := start + 1;
    if text[ptr] == 'u' {
      ptr, ptr2, us' := DecodeCode(text, start, out, at, us, tail, all);
    } else {
      us' := us[1..];
      Shift(text, start, 2);
      PutByte(out, at, Unescape(text[ptr]), Meaning(us'), all);
      ptr, ptr2 := ptr + 1, at + 1;
    }
  }

  /** `*ptr2++ = c` */
  method PutByte(out: array<char>, at: nat, c: char, ghost more: string, ghost all: string)
    requires at <= out.Length && |all| < out.Length && out[..at] + ([c] + more) == all
    modifies out
    ensures at < out.Length && out[..at + 1] + more == all
  {
    ghost var before := out[..at];
    out[at] := c;
    assert out[..at + 1] == before + [c];
    assert before + [c] + more == before + ([c] + more);
  }

  /** One step of the decoding loop at a `\u` escape. */
  method DecodeCode(text: string, start: nat, out: array<char>, at: nat, ghost us: seq<Unit>, ghost tail: string,
                    ghost all: string)
    returns (ptr: nat, ptr2: nat, ghost us': seq<Unit>)
    requires Inv(text, start, out, at, us, tail, all)
    requires At(text, start) == '\\' && At(text, start + 1) == 'u'
    modifies out
    ensures Inv(text, ptr, out, ptr2, us', tail, all) && ptr > start
  {
    hide Lex;
    var valid, uc;
    ptr, valid, uc, us' := ReadCode(text, start, us, tail);
    ptr2 := at;
    if valid {
      ghost var before := out[..at];
      assert before + (Utf8(uc) + Meaning(us')) == before + Utf8(uc) + Meaning(us');
      ptr2 := Utf8Writer.WriteUtf8(out, at, uc);
    }
  }

  /**
    Reads a `\u` escape, or two that are surrogates, at the backslash at `start`. `valid` says whether they stand
    for a code point; `ptr` is the position behind them.
   */
  method ReadCode(text: string, start: nat, ghost us: seq<Unit>, ghost tail: string)
    returns (ptr: nat, valid: bool, uc: nat, ghost us': seq<Unit>)
    requires start < |text| && Unread(text[start..], us, tail)
    requires At(text, start) == '\\' && At(text, start + 1) == 'u'
    ensures start < ptr <= |text| && Unread(text[ptr..], us', tail)
    ensures valid ==> uc < 0x110000
    ensures Meaning(us) == (if valid then Utf8(uc) else "") + Meaning(us')
  {
    hide Lex, Unread;
    CodeAt(text, start, us, tail);
    us' := us[1..];
    ptr := start + 1;
    uc := Hex4(text[ptr + 1..ptr + 5]);
    ptr := ptr + 4;
    valid := false;
    if !(0xDC00 <= uc <= 0xDFFF || uc == 0) {
      valid := true;
      if 0xD800 <= uc <= 0xDBFF {
        NextCode(text, ptr + 1, us', tail);
        if At(text, ptr + 1) != '\\' || At(text, ptr + 2) != 'u' {
          valid := false;
        } else {
          CodeAt(text, ptr + 1, us', tail);
          var uc2: nat := Hex4(text[ptr + 3..ptr + 7]);
          us' := us'[1..];
          ptr := ptr + 6;
          if uc2 < 0xDC00 || uc2 > 0xDFFF {
            valid := false;
          } else {
            PairBits(uc, uc2);
            uc := 0x10000 + Or(And(uc, 0x3FF) * 0x400, And(uc2, 0x3FF));
          }
        }
      }
    }
    ptr := ptr + 1;
  }

  lemma CodeAt(text: string, ptr: nat, us: seq<Unit>, tail: string)
    requires ptr < |text| && Unread(text[ptr..], us, tail)
    requires At(text, ptr) == '\\' && At(text, ptr + 1) == 'u'
    ensures ptr + 6 <= |text| && us != [] && us[0] == Code(text[ptr + 2..ptr + 6])
    ensures Unread(text[ptr + 6..], us[1..], tail)
  {
    hide Lex, Unread;
    var s := text[ptr..];
    assert s[1..] == text[ptr + 1..];
    ReadEscape(s, us, tail);
    assert s[2..6] == text[ptr + 2..ptr + 6];
    Shift(text, ptr, 6);
  }

  /** The next unit is a `\u` escape exactly when the next two bytes say so. */
  lemma NextCode(text: string, ptr: nat, us: seq<Unit>, tail: string)
    requires ptr <= |text| && Unread(text[ptr..], us, tail)
    ensures At(text, ptr) == '\\' ==> ptr < |text|
    ensures (us != [] && us[0].Code?) <==> (At(text, ptr) == '\\' && At(text, ptr + 1) == 'u')
  {
    var s := text[ptr..];
    if s != "" {
      assert s[1..] == text[ptr + 1..];
    }
  }

  /**
    `parse_string`: a block with the meaning of the token at `pos` and its terminator, and the position behind the
    token; no block when there is no quote at `pos` or the allocation fails.
   */
  method ParseString(h: Heap, text: string, pos: nat) returns (end: int, out: array?<char>)
    requires pos <= |text|
    requires At(text, pos) == '\"' ==> !Lex(text[pos + 1..]).Astray?
    modifies h
    ensures out == null ==> end == -1 && h.live == old(h.live)
    ensures Accounted(out != null, At(text, pos) != '\"', old(h.failures), h.failures)
    ensures out != null ==> fresh(out) && h.live == old(h.live) + {out}
    ensures out != null ==> At(text, pos) == '\"' && pos < end <= |text|
    ensures out != null ==>
      var token := Lex(text[pos + 1..]);
      HoldsText(out, Meaning(token.units)) && text[end..] == token.rest
  {
    hide Lex, Unread, Meaning, Count, Stop;
    if At(text, pos) != '\"' {
      return -1, null;
    }
    var start := pos + 1;
    ghost var token := Lex(text[start..]);
    ScanToken(text[start..]);
    var stop, len := CountBytes(text, start);
    out := h.NewText(len + 1);
    if out == null {
      return -1, null;
    }
    ghost var all := Meaning(token.units);
    var ptr, ptr2 := start, 0;
    Begins(text[start..]);
    assert out[..0] + all == all;
    ptr, ptr2 := DecodeAll(text, start, out, token.units, Ending(token), all);
    assert ptr == stop;
    out[ptr2] := '\0';
    end := ptr;
    TokenEnds(text, start, ptr);
    if At(text, ptr) == '\"' {
      end := ptr + 1;
    }
  }

  lemma Begins(s: string)
    requires !Lex(s).Astray?
    ensures Unread(s, Lex(s).units, Ending(Lex(s)))
  {
  }

  lemma TokenEnds(text: string, start: nat, ptr: nat)
    requires start <= ptr <= |text| && !Lex(text[start..]).Astray? && text[ptr..] == Ending(Lex(text[start..]))
    ensures At(text, ptr) == '\"' ==> ptr < |text| && text[ptr + 1..] == Lex(text[start..]).rest
    ensures At(text, ptr) != '\"' ==> text[ptr..] == Lex(text[start..]).rest
  {
    if At(text, ptr) == '\"' {
      assert text[ptr..][1..] == text[ptr + 1..];
    }
  }

  /** The counting loop. It ends where the token does. */
  method CountBytes(text: string, start: nat) returns (ptr: nat, len: nat)
    requires start <= |text| && Scans(text[start..])
    ensures len == Count(text[start..])
    ensures start <= ptr <= |text| && text[ptr..] == Stop(text[start..])
  {
    ptr, len := start, 0;
    while At(text, ptr) != '\"' && At(text, ptr) != '\0'
      invariant start <= ptr <= |text| && Scans(text[ptr..])
      invariant len + Count(text[ptr..]) == Count(text[start..]) && Stop(text[ptr..]) == Stop(text[start..])
      decreases |text| - ptr
    {
      assert text[ptr..][1..] == text[ptr + 1..];
      len := len + 1;
      ptr := ptr + 1;
      if text[ptr - 1] == '\\' {
        assert text[ptr - 1..][2..] == text[ptr + 1..];
        ptr := ptr + 1;
      }
    }
  }

  /** The decoding loop. It ends where the token does. */
  method DecodeAll(text: string, start: nat, out: array<char>, ghost units: seq<Unit>, ghost tail: string,
                   ghost all: string)
    returns (ptr: nat, ptr2: nat)
    requires Inv(text, start, out, 0, units, tail, all)
    modifies out
    ensures ptr <= |text| && text[ptr..] == tail
    ensures ptr2 == |all| < out.Length && out[..ptr2] == all
  {
    hide Unread;
    ptr, ptr2 := start, 0;
    ghost var us := units;
    while At(text, ptr) != '\"' && At(text, ptr) != '\0'
      invariant Inv(text, ptr, out, ptr2, us, tail, all)
      decreases |text| - ptr
    {
      if At(text, ptr) != '\\' {
        ptr, ptr2, us := DecodePlain(text, ptr, out, ptr2, us, tail, all);
      } else {
        ptr, ptr2, us := DecodeEscape(text, ptr, out, ptr2, us, tail, all);
      }
    }
    AllRead(text[ptr..], us, tail);
    assert out[..ptr2] + "" == out[..ptr2];
  }

  lemma AllRead(s: string, us: seq<Unit>, tail: string)
    requires Unread(s, us, tail) && (Head(s) == '\"' || Head(s) == '\0')
    ensures us == [] && s == tail
  {
  }

  method DecodePlain(text: string, start: nat, out: array<char>, at: nat, ghost us: seq<Unit>, ghost tail: string,
                     ghost all: string)
    returns (ptr: nat, ptr2: nat, ghost us': seq<Unit>)
    requires Inv(text, start, out, at, us, tail, all)
    requires var c := At(text, start); c != '\"' && c != '\\' && c != '\0'
    modifies out
    ensures Inv(text, ptr, out, ptr2, us', tail, all) && ptr > start
  {
    hide Lex;
    ReadPlain(text[start..], us, tail);
    us' := us[1..];
    Shift(text, start, 1);
    PutByte(out, at, text[start], Meaning(us'), all);
    ptr, ptr2 := start + 1, at + 1;
  }
}
