/** Reading UTF-8 and writing it back: which forms are overlong, and that all others are restored. */
module Utf8Forms {
  import opened Basics
  import opened Utf

  /** The least number of units for a code point. */
  function MinSize(cp: bv32): nat {
    if cp < 0x80 then 1 else if cp < 0x800 then 2 else if cp < 0x1_0000 then 3
    else if cp < 0x20_0000 then 4 else if cp < 0x400_0000 then 5 else 6
  }

  lemma WrittenSize(cp: bv32)
    requires cp < 0x8000_0000
    ensures |WriteOne(Utf8, cp).units| == MinSize(cp)
  {}

  /** The sequence at the front spends more units than its code point needs, as its first two units show. */
  predicate Overlong(s: Units)
    requires s != []
  {
    || 0xC0 <= s[0] < 0xC2
    || (|s| > 1 && ((s[0] == 0xE0 && s[1] < 0xA0) || (s[0] == 0xF0 && s[1] < 0x90) ||
                    (s[0] == 0xF8 && s[1] < 0x88) || (s[0] == 0xFC && s[1] < 0x84)))
  }

  // For each length: the folded offset leaves the payload bits, which are below the length's least code point exactly
  // for an overlong form, never above its greatest one, and from which the units are restored.

  lemma Payload2(a: bv32, b: bv32)
    requires 0xC0 <= a < 0xE0 && b >> 6 == 2
    ensures Value2(a, b) == ((a & 0x1F) << 6) | (b & 0x3F)
  {}

  predicate Exact2(a: bv32, b: bv32, v: bv32) {
    && v < 0x800 && (v < 0x80 <==> a < 0xC2)
    && (0xC0 | (v >> 6)) & 0xFF == a && (0x80 | (v & 0x3F)) & 0xFF == b
  }

  lemma Restored2(a: bv32, b: bv32, v: bv32)
    requires 0xC0 <= a < 0xE0 && b >> 6 == 2
    requires v == ((a & 0x1F) << 6) | (b & 0x3F)
    ensures Exact2(a, b, v)
  {}

  lemma ExactValue2(a: bv32, b: bv32)
    requires 0xC0 <= a < 0xE0 && b >> 6 == 2
    ensures Exact2(a, b, Value2(a, b))
  {
    Payload2(a, b);
    Restored2(a, b, Value2(a, b));
  }

  lemma Payload3(a: bv32, b: bv32, c: bv32)
    requires 0xE0 <= a < 0xF0 && b >> 6 == 2 && c >> 6 == 2
    ensures Value3(a, b, c) == ((a & 0xF) << 12) | ((b & 0x3F) << 6) | (c & 0x3F)
  {}

  predicate Exact3(a: bv32, b: bv32, c: bv32, v: bv32) {
    && v < 0x1_0000 && (v < 0x800 <==> a == 0xE0 && b < 0xA0)
    && (0xE0 | (v >> 12)) & 0xFF == a && (0x80 | ((v >> 6) & 0x3F)) & 0xFF == b
    && (0x80 | (v & 0x3F)) & 0xFF == c
  }

  lemma Restored3(a: bv32, b: bv32, c: bv32, v: bv32)
    requires 0xE0 <= a < 0xF0 && b >> 6 == 2 && c >> 6 == 2
    requires v == ((a & 0xF) << 12) | ((b & 0x3F) << 6) | (c & 0x3F)
    ensures Exact3(a, b, c, v)
  {}

  lemma ExactValue3(a: bv32, b: bv32, c: bv32)
    requires 0xE0 <= a < 0xF0 && b >> 6 == 2 && c >> 6 == 2
    ensures Exact3(a, b, c, Value3(a, b, c))
  {
    Payload3(a, b, c);
    Restored3(a, b, c, Value3(a, b, c));
  }

  lemma Payload4(a: bv32, b: bv32, c: bv32, d: bv32)
    requires 0xF0 <= a < 0xF8 && b >> 6 == 2 && c >> 6 == 2 && d >> 6 == 2
    ensures Value4(a, b, c, d) == ((a & 0x7) << 18) | ((b & 0x3F) << 12) | ((c & 0x3F) << 6) | (d & 0x3F)
  {}

  predicate Exact4(a: bv32, b: bv32, c: bv32, d: bv32, v: bv32) {
    && v < 0x20_0000 && (v < 0x1_0000 <==> a == 0xF0 && b < 0x90)
    && (0xF0 | (v >> 18)) & 0xFF == a && (0x80 | ((v >> 12) & 0x3F)) & 0xFF == b
    && (0x80 | ((v >> 6) & 0x3F)) & 0xFF == c && (0x80 | (v & 0x3F)) & 0xFF == d
  }

  lemma Restored4(a: bv32, b: bv32, c: bv32, d: bv32, v: bv32)
    requires 0xF0 <= a < 0xF8 && b >> 6 == 2 && c >> 6 == 2 && d >> 6 == 2
    requires v == ((a & 0x7) << 18) | ((b & 0x3F) << 12) | ((c & 0x3F) << 6) | (d & 0x3F)
    ensures Exact4(a, b, c, d, v)
  {}

  lemma ExactValue4(a: bv32, b: bv32, c: bv32, d: bv32)
    requires 0xF0 <= a < 0xF8 && b >> 6 == 2 && c >> 6 == 2 && d >> 6 == 2
    ensures Exact4(a, b, c, d, Value4(a, b, c, d))
  {
    Payload4(a, b, c, d);
    Restored4(a, b, c, d, Value4(a, b, c, d));
  }

  lemma Payload5(a: bv32, b: bv32, c: bv32, d: bv32, e: bv32)
    requires 0xF8 <= a < 0xFC && b >> 6 == 2 && c >> 6 == 2 && d >> 6 == 2 && e >> 6 == 2
    ensures Value5(a, b, c, d, e) ==
      ((a & 0x3) << 24) | ((b & 0x3F) << 18) | ((c & 0x3F) << 12) | ((d & 0x3F) << 6) | (e & 0x3F)
  {}

  predicate Exact5(a: bv32, b: bv32, c: bv32, d: bv32, e: bv32, v: bv32) {
    && v < 0x400_0000 && (v < 0x20_0000 <==> a == 0xF8 && b < 0x88)
    && (0xF8 | (v >> 24)) & 0xFF == a && (0x80 | ((v >> 18) & 0x3F)) & 0xFF == b
    && (0x80 | ((v >> 12) & 0x3F)) & 0xFF == c && (0x80 | ((v >> 6) & 0x3F)) & 0xFF == d
    && (0x80 | (v & 0x3F)) & 0xFF == e
  }

  lemma Restored5(a: bv32, b: bv32, c: bv32, d: bv32, e: bv32, v: bv32)
    requires 0xF8 <= a < 0xFC && b >> 6 == 2 && c >> 6 == 2 && d >> 6 == 2 && e >> 6 == 2
    requires v == ((a & 0x3) << 24) | ((b & 0x3F) << 18) | ((c & 0x3F) << 12) | ((d & 0x3F) << 6) | (e & 0x3F)
    ensures Exact5(a, b, c, d, e, v)
  {}

  lemma ExactValue5(a: bv32, b: bv32, c: bv32, d: bv32, e: bv32)
    requires 0xF8 <= a < 0xFC && b >> 6 == 2 && c >> 6 == 2 && d >> 6 == 2 && e >> 6 == 2
    ensures Exact5(a, b, c, d, e, Value5(a, b, c, d, e))
  {
    Payload5(a, b, c, d, e);
    Restored5(a, b, c, d, e, Value5(a, b, c, d, e));
  }

  lemma Payload6(a: bv32, b: bv32, c: bv32, d: bv32, e: bv32, f: bv32)
    requires 0xFC <= a < 0xFE && b >> 6 == 2 && c >> 6 == 2 && d >> 6 == 2 && e >> 6 == 2 && f >> 6 == 2
    ensures Value6(a, b, c, d, e, f) ==
      ((a & 0x1) << 30) | ((b & 0x3F) << 24) | ((c & 0x3F) << 18) | ((d & 0x3F) << 12) | ((e & 0x3F) << 6) | (f & 0x3F)
  {}

  predicate Exact6(a: bv32, b: bv32, c: bv32, d: bv32, e: bv32, f: bv32, v: bv32) {
    && v < 0x8000_0000 && (v < 0x400_0000 <==> a == 0xFC && b < 0x84)
    && (0xFC | (v >> 30)) & 0xFF == a && (0x80 | ((v >> 24) & 0x3F)) & 0xFF == b
    && (0x80 | ((v >> 18) & 0x3F)) & 0xFF == c && (0x80 | ((v >> 12) & 0x3F)) & 0xFF == d
    && (0x80 | ((v >> 6) & 0x3F)) & 0xFF == e && (0x80 | (v & 0x3F)) & 0xFF == f
  }

  lemma Restored6(a: bv32, b: bv32, c: bv32, d: bv32, e: bv32, f: bv32, v: bv32)
    requires 0xFC <= a < 0xFE && b >> 6 == 2 && c >> 6 == 2 && d >> 6 == 2 && e >> 6 == 2 && f >> 6 == 2
    requires v ==
      ((a & 0x1) << 30) | ((b & 0x3F) << 24) | ((c & 0x3F) << 18) | ((d & 0x3F) << 12) | ((e & 0x3F) << 6) | (f & 0x3F)
    ensures Exact6(a, b, c, d, e, f, v)
  {}

  lemma ExactValue6(a: bv32, b: bv32, c: bv32, d: bv32, e: bv32, f: bv32)
    requires 0xFC <= a < 0xFE && b >> 6 == 2 && c >> 6 == 2 && d >> 6 == 2 && e >> 6 == 2 && f >> 6 == 2
    ensures Exact6(a, b, c, d, e, f, Value6(a, b, c, d, e, f))
  {
    Payload6(a, b, c, d, e, f);
    Restored6(a, b, c, d, e, f, Value6(a, b, c, d, e, f));
  }

  /** The number of units is the number of leading ones of the first unit, or one if there is none. */
  lemma LeadingOnes(first: bv32)
    ensures CharSize(Utf8, first) == Some(1) <==> first >> 7 == 0
    ensures CharSize(Utf8, first) == Some(2) <==> first >> 5 == 0x6
    ensures CharSize(Utf8, first) == Some(3) <==> first >> 4 == 0xE
    ensures CharSize(Utf8, first) == Some(4) <==> first >> 3 == 0x1E
    ensures CharSize(Utf8, first) == Some(5) <==> first >> 2 == 0x3E
    ensures CharSize(Utf8, first) == Some(6) <==> first >> 1 == 0x7E
  {}

  /** What is read from UTF-8 is the low bits of the first unit followed by six bits of each other unit. */
  lemma ReadBits8(s: Units)
    requires ReadOne(Utf8, s).Read?
    ensures var n, cp := ReadOne(Utf8, s).size, ReadOne(Utf8, s).cp;
            if n == 1 then cp == s[0]
            else if n == 2 then cp == ((s[0] & 0x1F) << 6) | (s[1] & 0x3F)
            else if n == 3 then cp == ((s[0] & 0xF) << 12) | ((s[1] & 0x3F) << 6) | (s[2] & 0x3F)
            else if n == 4 then
              cp == ((s[0] & 0x7) << 18) | ((s[1] & 0x3F) << 12) | ((s[2] & 0x3F) << 6) | (s[3] & 0x3F)
            else if n == 5 then
              cp == ((s[0] & 0x3) << 24) | ((s[1] & 0x3F) << 18) | ((s[2] & 0x3F) << 12) | ((s[3] & 0x3F) << 6) |
                    (s[4] & 0x3F)
            else
              cp == ((s[0] & 0x1) << 30) | ((s[1] & 0x3F) << 24) | ((s[2] & 0x3F) << 18) | ((s[3] & 0x3F) << 12) |
                    ((s[4] & 0x3F) << 6) | (s[5] & 0x3F)
  {
    var n := ReadOne(Utf8, s).size;
    if n == 2 { Payload2(s[0], s[1]); }
    else if n == 3 { Payload3(s[0], s[1], s[2]); }
    else if n == 4 { Payload4(s[0], s[1], s[2], s[3]); }
    else if n == 5 { Payload5(s[0], s[1], s[2], s[3], s[4]); }
    else if n == 6 { Payload6(s[0], s[1], s[2], s[3], s[4], s[5]); }
  }

  lemma WriteUnits2(a: bv32, b: bv32, v: bv32)
    requires Exact2(a, b, v) && !(a < 0xC2)
    ensures 0x80 <= v < 0x800
    ensures Byte(0xC0 | (v >> 6)) == a && Tail(v) == b
  {}

  lemma WriteLength2(v: bv32)
    requires 0x80 <= v < 0x800
    ensures WriteOne(Utf8, v) == Written([Byte(0xC0 | (v >> 6)), Tail(v)])
  {}

  lemma WriteExact2(a: bv32, b: bv32, v: bv32)
    requires Exact2(a, b, v)
    ensures if a < 0xC2 then v < 0x80 else WriteOne(Utf8, v) == Written([a, b])
  {
    if !(a < 0xC2) {
      WriteUnits2(a, b, v);
      WriteLength2(v);
    }
  }

  lemma WriteValue2(a: bv32, b: bv32)
    requires 0xC0 <= a < 0xE0 && b >> 6 == 2
    ensures var v := Value2(a, b);
            if a < 0xC2 then v < 0x80 else WriteOne(Utf8, v) == Written([a, b])
  {
    ExactValue2(a, b);
    WriteExact2(a, b, Value2(a, b));
  }

  lemma Lead2(s: Units)
    requires 2 <= |s| && CharSize(Utf8, s[0]) == Some(2)
    ensures 0xC0 <= s[0] < 0xE0 && (Overlong(s) <==> s[0] < 0xC2)
  {}

  lemma WriteRange2(s: Units)
    requires 2 <= |s| && CharSize(Utf8, s[0]) == Some(2)
    requires forall i | 1 <= i < 2 :: s[i] >> 6 == 2
    ensures var v := Value2(s[0], s[1]);
            if Overlong(s) then v < 0x80 else WriteOne(Utf8, v) == Written(s[..2])
  {
    Lead2(s);
    WriteValue2(s[0], s[1]);
    assert s[..2] == [s[0], s[1]];
  }

  lemma WriteUnits3(a: bv32, b: bv32, c: bv32, v: bv32)
    requires Exact3(a, b, c, v) && !(a == 0xE0 && b < 0xA0)
    ensures 0x800 <= v < 0x1_0000
    ensures Byte(0xE0 | (v >> 12)) == a && Tail(v >> 6) == b && Tail(v) == c
  {}

  lemma WriteLength3(v: bv32)
    requires 0x800 <= v < 0x1_0000
    ensures WriteOne(Utf8, v) == Written([Byte(0xE0 | (v >> 12)), Tail(v >> 6), Tail(v)])
  {}

  lemma WriteExact3(a: bv32, b: bv32, c: bv32, v: bv32)
    requires Exact3(a, b, c, v)
    ensures if a == 0xE0 && b < 0xA0 then v < 0x800 else WriteOne(Utf8, v) == Written([a, b, c])
  {
    if !(a == 0xE0 && b < 0xA0) {
      WriteUnits3(a, b, c, v);
      WriteLength3(v);
    }
  }

  lemma WriteValue3(a: bv32, b: bv32, c: bv32)
    requires 0xE0 <= a < 0xF0 && b >> 6 == 2 && c >> 6 == 2
    ensures var v := Value3(a, b, c);
            if a == 0xE0 && b < 0xA0 then v < 0x800 else WriteOne(Utf8, v) == Written([a, b, c])
  {
    ExactValue3(a, b, c);
    WriteExact3(a, b, c, Value3(a, b, c));
  }

  lemma Lead3(s: Units)
    requires 3 <= |s| && CharSize(Utf8, s[0]) == Some(3)
    ensures 0xE0 <= s[0] < 0xF0 && (Overlong(s) <==> s[0] == 0xE0 && s[1] < 0xA0)
  {}

  lemma WriteRange3(s: Units)
    requires 3 <= |s| && CharSize(Utf8, s[0]) == Some(3)
    requires forall i | 1 <= i < 3 :: s[i] >> 6 == 2
    ensures var v := Value3(s[0], s[1], s[2]);
            if Overlong(s) then v < 0x800 else WriteOne(Utf8, v) == Written(s[..3])
  {
    Lead3(s);
    WriteValue3(s[0], s[1], s[2]);
    assert s[..3] == [s[0], s[1], s[2]];
  }

  lemma WriteUnits4(a: bv32, b: bv32, c: bv32, d: bv32, v: bv32)
    requires Exact4(a, b, c, d, v) && !(a == 0xF0 && b < 0x90)
    ensures 0x1_0000 <= v < 0x20_0000
    ensures Byte(0xF0 | (v >> 18)) == a && Tail(v >> 12) == b && Tail(v >> 6) == c
    ensures Tail(v) == d
  {}

  lemma WriteLength4(v: bv32)
    requires 0x1_0000 <= v < 0x20_0000
    ensures WriteOne(Utf8, v) == Written([Byte(0xF0 | (v >> 18)), Tail(v >> 12), Tail(v >> 6), Tail(v)])
  {}

  lemma WriteExact4(a: bv32, b: bv32, c: bv32, d: bv32, v: bv32)
    requires Exact4(a, b, c, d, v)
    ensures if a == 0xF0 && b < 0x90 then v < 0x1_0000 else WriteOne(Utf8, v) == Written([a, b, c, d])
  {
    if !(a == 0xF0 && b < 0x90) {
      WriteUnits4(a, b, c, d, v);
      WriteLength4(v);
    }
  }

  lemma WriteValue4(a: bv32, b: bv32, c: bv32, d: bv32)
    requires 0xF0 <= a < 0xF8 && b >> 6 == 2 && c >> 6 == 2 && d >> 6 == 2
    ensures var v := Value4(a, b, c, d);
            if a == 0xF0 && b < 0x90 then v < 0x1_0000 else WriteOne(Utf8, v) == Written([a, b, c, d])
  {
    ExactValue4(a, b, c, d);
    WriteExact4(a, b, c, d, Value4(a, b, c, d));
  }

  lemma Lead4(s: Units)
    requires 4 <= |s| && CharSize(Utf8, s[0]) == Some(4)
    ensures 0xF0 <= s[0] < 0xF8 && (Overlong(s) <==> s[0] == 0xF0 && s[1] < 0x90)
  {}

  lemma WriteRange4(s: Units)
    requires 4 <= |s| && CharSize(Utf8, s[0]) == Some(4)
    requires forall i | 1 <= i < 4 :: s[i] >> 6 == 2
    ensures var v := Value4(s[0], s[1], s[2], s[3]);
            if Overlong(s) then v < 0x1_0000 else WriteOne(Utf8, v) == Written(s[..4])
  {
    Lead4(s);
    WriteValue4(s[0], s[1], s[2], s[3]);
    assert s[..4] == [s[0], s[1], s[2], s[3]];
  }

  lemma WriteUnits5(a: bv32, b: bv32, c: bv32, d: bv32, e: bv32, v: bv32)
    requires Exact5(a, b, c, d, e, v) && !(a == 0xF8 && b < 0x88)
    ensures 0x20_0000 <= v < 0x400_0000
    ensures Byte(0xF8 | (v >> 24)) == a && Tail(v >> 18) == b && Tail(v >> 12) == c
    ensures Tail(v >> 6) == d && Tail(v) == e
  {}

  lemma WriteLength5(v: bv32)
    requires 0x20_0000 <= v < 0x400_0000
    ensures WriteOne(Utf8, v) == Written([Byte(0xF8 | (v >> 24)), Tail(v >> 18), Tail(v >> 12), Tail(v >> 6), Tail(v)])
  {}

  lemma WriteExact5(a: bv32, b: bv32, c: bv32, d: bv32, e: bv32, v: bv32)
    requires Exact5(a, b, c, d, e, v)
    ensures if a == 0xF8 && b < 0x88 then v < 0x20_0000 else WriteOne(Utf8, v) == Written([a, b, c, d, e])
  {
    if !(a == 0xF8 && b < 0x88) {
      WriteUnits5(a, b, c, d, e, v);
      WriteLength5(v);
    }
  }

  lemma WriteValue5(a: bv32, b: bv32, c: bv32, d: bv32, e: bv32)
    requires 0xF8 <= a < 0xFC && b >> 6 == 2 && c >> 6 == 2 && d >> 6 == 2 && e >> 6 == 2
    ensures var v := Value5(a, b, c, d, e);
            if a == 0xF8 && b < 0x88 then v < 0x20_0000 else WriteOne(Utf8, v) == Written([a, b, c, d, e])
  {
    ExactValue5(a, b, c, d, e);
    WriteExact5(a, b, c, d, e, Value5(a, b, c, d, e));
  }

  lemma Lead5(s: Units)
    requires 5 <= |s| && CharSize(Utf8, s[0]) == Some(5)
    ensures 0xF8 <= s[0] < 0xFC && (Overlong(s) <==> s[0] == 0xF8 && s[1] < 0x88)
  {}

  lemma WriteRange5(s: Units)
    requires 5 <= |s| && CharSize(Utf8, s[0]) == Some(5)
    requires forall i | 1 <= i < 5 :: s[i] >> 6 == 2
    ensures var v := Value5(s[0], s[1], s[2], s[3], s[4]);
            if Overlong(s) then v < 0x20_0000 else WriteOne(Utf8, v) == Written(s[..5])
  {
    Lead5(s);
    WriteValue5(s[0], s[1], s[2], s[3], s[4]);
    assert s[..5] == [s[0], s[1], s[2], s[3], s[4]];
  }

  lemma WriteUnits6(a: bv32, b: bv32, c: bv32, d: bv32, e: bv32, f: bv32, v: bv32)
    requires Exact6(a, b, c, d, e, f, v) && !(a == 0xFC && b < 0x84)
    ensures 0x400_0000 <= v < 0x8000_0000
    ensures Byte(0xFC | (v >> 30)) == a && Tail(v >> 24) == b && Tail(v >> 18) == c
    ensures Tail(v >> 12) == d && Tail(v >> 6) == e && Tail(v) == f
  {}

  lemma WriteLength6(v: bv32)
    requires 0x400_0000 <= v < 0x8000_0000
    ensures WriteOne(Utf8, v) ==
      Written([Byte(0xFC | (v >> 30)), Tail(v >> 24), Tail(v >> 18), Tail(v >> 12), Tail(v >> 6), Tail(v)])
  {}

  lemma WriteExact6(a: bv32, b: bv32, c: bv32, d: bv32, e: bv32, f: bv32, v: bv32)
    requires Exact6(a, b, c, d, e, f, v)
    ensures if a == 0xFC && b < 0x84 then v < 0x400_0000 else WriteOne(Utf8, v) == Written([a, b, c, d, e, f])
  {
    if !(a == 0xFC && b < 0x84) {
      WriteUnits6(a, b, c, d, e, f, v);
      WriteLength6(v);
    }
  }

  lemma WriteValue6(a: bv32, b: bv32, c: bv32, d: bv32, e: bv32, f: bv32)
    requires 0xFC <= a < 0xFE && b >> 6 == 2 && c >> 6 == 2 && d >> 6 == 2 && e >> 6 == 2 && f >> 6 == 2
    ensures var v := Value6(a, b, c, d, e, f);
            if a == 0xFC && b < 0x84 then v < 0x400_0000 else WriteOne(Utf8, v) == Written([a, b, c, d, e, f])
  {
    ExactValue6(a, b, c, d, e, f);
    WriteExact6(a, b, c, d, e, f, Value6(a, b, c, d, e, f));
  }

  lemma Lead6(s: Units)
    requires 6 <= |s| && CharSize(Utf8, s[0]) == Some(6)
    ensures 0xFC <= s[0] < 0xFE && (Overlong(s) <==> s[0] == 0xFC && s[1] < 0x84)
  {}

  lemma WriteRange6(s: Units)
    requires 6 <= |s| && CharSize(Utf8, s[0]) == Some(6)
    requires forall i | 1 <= i < 6 :: s[i] >> 6 == 2
    ensures var v := Value6(s[0], s[1], s[2], s[3], s[4], s[5]);
            if Overlong(s) then v < 0x400_0000 else WriteOne(Utf8, v) == Written(s[..6])
  {
    Lead6(s);
    WriteValue6(s[0], s[1], s[2], s[3], s[4], s[5]);
    assert s[..6] == [s[0], s[1], s[2], s[3], s[4], s[5]];
  }

  lemma WriteRange8(s: Units, n: nat)
    requires 1 <= n <= 6 && n <= |s| && CharSize(Utf8, s[0]) == Some(n)
    requires forall i | 1 <= i < n :: s[i] >> 6 == 2
    ensures var v := Utf8Value(s, n);
            if Overlong(s) then MinSize(v) < n else WriteOne(Utf8, v) == Written(s[..n])
  {
    if n == 2 { WriteRange2(s); }
    else if n == 3 { WriteRange3(s); }
    else if n == 4 { WriteRange4(s); }
    else if n == 5 { WriteRange5(s); }
    else if n == 6 { WriteRange6(s); }
  }

  /** What was read from UTF-8 is written back as it was, unless the form was overlong: then it takes fewer units. */
  lemma WriteRead8(s: Units)
    requires ReadOne(Utf8, s).Read?
    ensures var r := ReadOne(Utf8, s);
            Supported(Utf8, r.cp) &&
            if Overlong(s) then |WriteOne(Utf8, r.cp).units| < r.size
            else WriteOne(Utf8, r.cp) == Written(s[..r.size])
  {
    var n := ReadOne(Utf8, s).size;
    WriteRange8(s, n);
    WrittenSize(Utf8Value(s, n));
  }
}
