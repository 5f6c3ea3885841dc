/** How `parse_string` writes a code point, from its last byte back to its first. */
module Utf8Writer {
  import opened Bits
  import StringToken

  /** `firstByteMark` for the lengths that occur. */
  function FirstByteMark(len: nat): nat {
    if len == 2 then 0xC0 else if len == 3 then 0xE0 else if len == 4 then 0xF0 else 0
  }

  /** `((uc | 0x80) & 0xBF)` */
  lemma ContinuationByte(uc: nat)
    ensures And(Or(uc, 0x80), 0xBF) == 0x80 + uc % 0x40
  {
    var h, a := uc / 0x40, uc % 0x40;
    assert Or(uc, 0x80) == 0x40 * Or(h, 2) + a by {
      OrSplit(6, h, a, 2, 0, uc, 0x80);
      OrZero(a);
    }
    assert And(Or(uc, 0x80), 0xBF) == 0x40 * And(Or(h, 2), 2) + a by {
      AndSplit(6, Or(h, 2), a, 2, 0x3F, Or(uc, 0x80), 0xBF);
      AndOnes(a, 6);
    }
    OrThenAndTwo(h);
  }

  lemma OrThenAndTwo(h: nat)
    ensures And(Or(h, 2), 2) == 2
  {
    var x := Or(h, 2);
    assert x / 2 == Or(h / 2, 1);
    assert x / 2 % 2 == 1;
    assert And(x, 2) == 2 * And(x / 2, 1);
    assert And(x / 2, 1) == 2 * And(x / 2 / 2, 0) + 1;
    AndZero(x / 2 / 2);
  }

  lemma {:induction false} OrZero(a: nat)
    ensures Or(a, 0) == a && Or(0, a) == a
  {
    if a > 0 {
      OrZero(a / 2);
    }
  }

  lemma {:induction false} AndZero(a: nat)
    ensures And(a, 0) == 0
  {
    if a > 0 {
      AndZero(a / 2);
    }
  }

  lemma FirstByte(uc: nat, len: nat)
    requires 1 <= len <= 4 && uc < if len == 1 then 0x80 else if len == 2 then 0x20 else if len == 3 then 0x10 else 8
    ensures Or(uc, FirstByteMark(len)) == FirstByteMark(len) + uc
  {
    if len == 1 {
      OrZero(uc);
    } else {
      var t := if len == 2 then 5 else if len == 3 then 4 else 3;
      assert Pow2(5) == 0x20 && Pow2(4) == 0x10 && Pow2(3) == 8;
      var m := FirstByteMark(len) / Pow2(t);
      OrSplit(t, 0, uc, m, 0, uc, FirstByteMark(len));
      OrZero(m);
      OrZero(uc);
    }
  }

  lemma ShiftSix(uc: nat)
    ensures Shr(uc, 6) == uc / 0x40
  {
    var x := uc / 2 / 2 / 2;
    assert Shr(uc, 6) == Shr(uc / 2, 5) == Shr(uc / 2 / 2, 4) == Shr(x, 3);
    assert Shr(x, 3) == Shr(x / 2, 2) == Shr(x / 2 / 2, 1) == x / 2 / 2 / 2;
  }

  /** One case of the switch: `*--ptr2 = ((uc | 0x80) & 0xBF); uc >>= 6;` */
  method PutContinuation(out: array<char>, ptr: nat, uc: nat) returns (uc': nat)
    requires 0 < ptr <= out.Length
    modifies out
    ensures out[ptr - 1..] == [StringToken.Continuation(uc)] + old(out[ptr..])
    ensures out[..ptr - 1] == old(out[..ptr - 1])
    ensures uc' == uc / 0x40
  {
    ContinuationByte(uc);
    ShiftSix(uc);
    ghost var tail := out[ptr..];
    out[ptr - 1] := And(Or(uc, 0x80), 0xBF) as char;
    assert out[ptr..] == tail;
    uc' := Shr(uc, 6);
  }

  /** Writes the UTF-8 form of `code` at `at` and returns the position behind it. */
  method WriteUtf8(out: array<char>, at: nat, code: nat) returns (end: nat)
    requires code < 0x110000 && at + StringToken.Utf8Length(code) <= out.Length
    modifies out
    ensures end == at + StringToken.Utf8Length(code)
    ensures out[..end] == old(out[..at]) + StringToken.Utf8(code)
  {
    var uc := code;
    var len := 4;
    if uc < 0x80 { len := 1; } else if uc < 0x800 { len := 2; } else if uc < 0x10000 { len := 3; }
    end := at + len;
    ghost var before, tail := out[..at], out[end..];
    var ptr := end;
    if len >= 4 { uc := PutContinuation(out, ptr, uc); ptr := ptr - 1; }
    if len >= 3 { uc := PutContinuation(out, ptr, uc); ptr := ptr - 1; }
    if len >= 2 { uc := PutContinuation(out, ptr, uc); ptr := ptr - 1; }
    FirstByte(uc, len);
    ghost var rest := out[ptr..];
    assert [(Or(uc, FirstByteMark(len)) as char)] + rest == StringToken.Utf8(code) + tail;
    assert out[..ptr - 1] == before;
    PutFirst(out, ptr, Or(uc, FirstByteMark(len)) as char);
    Joined(out[..], before, StringToken.Utf8(code), tail);
  }

  method PutFirst(out: array<char>, ptr: nat, c: char)
    requires 0 < ptr <= out.Length
    modifies out
    ensures out[..] == old(out[..ptr - 1]) + ([c] + old(out[ptr..]))
  {
    ghost var a, b := out[..ptr - 1], out[ptr..];
    out[ptr - 1] := c;
    assert out[..ptr - 1] == a && out[ptr..] == b;
  }

  lemma Joined(all: string, a: string, b: string, c: string)
    requires all == a + (b + c)
    ensures all[..|a| + |b|] == a + b
  {
  }
}
