/** The UTF-8 and UTF-16 codecs, as values. Code units and code points are kept in 32-bit words and computed with
    the original's 32-bit arithmetic, wrap-around included; `Typed` says that units fit their character type. */
module Utf {
  import opened Basics

  datatype Encoding = Utf8 | Utf16

  datatype Error =
    | NotEnoughInput
    | BadFirst            // the UTF-8 first unit is incorrect
    | BadContinuation     // the UTF-8 continuation unit is incorrect
    | LowExpected         // the UTF-16 low surrogate is expected
    | HighExpected        // the UTF-16 high surrogate is expected
    | InSurrogateRange    // the UTF-16 code point cannot be a surrogate
    | TooLarge            // the code point is too large

  /** The code point at the front of a range and how many units it takes. */
  datatype ReadResult = Read(cp: bv32, size: nat) | ReadError(error: Error)

  datatype WriteResult = Written(units: seq<bv32>) | WriteError(error: Error)

  type Units = seq<bv32>

  function MaxSize(e: Encoding): nat {
    if e == Utf8 then 6 else 2
  }

  predicate Typed(e: Encoding, s: Units) {
    forall i | 0 <= i < |s| :: if e == Utf8 then s[i] < 0x100 else s[i] < 0x1_0000
  }

  // ----- one code point

  /** `char_size`: how many units the first unit announces. */
  function CharSize(e: Encoding, first: bv32): (size: Option<nat>)
    ensures size.Some? ==> 1 <= size.value <= MaxSize(e)
  {
    if e == Utf8 then
      if first < 0x80 then Some(1)
      else if first < 0xC0 then None
      else if first < 0xE0 then Some(2)
      else if first < 0xF0 then Some(3)
      else if first < 0xF8 then Some(4)
      else if first < 0xFC then Some(5)
      else if first < 0xFE then Some(6)
      else None
    else
      if first < 0xD800 then Some(1)
      else if first < 0xDC00 then Some(2)
      else if first < 0xE000 then None
      else Some(1)
  }

  /** What is wrong with the first continuation unit of `s[k..n]` that is missing or malformed. */
  function Continuation(s: Units, k: nat, n: nat): (e: Option<Error>)
    requires 1 <= k <= n
    ensures e == None ==> n <= |s| && forall i | k <= i < n :: s[i] >> 6 == 2
    decreases n - k
  {
    if k == n then (if |s| < n then Some(NotEnoughInput) else None)
    else if |s| <= k then Some(NotEnoughInput)
    else if s[k] >> 6 != 2 then Some(BadContinuation)
    else Continuation(s, k + 1, n)
  }

  function Value2(a: bv32, b: bv32): bv32 {
    (a << 6) + b - 0x3080
  }

  function Value3(a: bv32, b: bv32, c: bv32): bv32 {
    (a << 12) + (b << 6) + c - 0xE2080
  }

  function Value4(a: bv32, b: bv32, c: bv32, d: bv32): bv32 {
    (a << 18) + (b << 12) + (c << 6) + d - 0x3C82080
  }

  function Value5(a: bv32, b: bv32, c: bv32, d: bv32, e: bv32): bv32 {
    (a << 24) + (b << 18) + (c << 12) + (d << 6) + e - 0xFA082080
  }

  function Value6(a: bv32, b: bv32, c: bv32, d: bv32, e: bv32, f: bv32): bv32 {
    (a << 30) + (b << 24) + (c << 18) + (d << 12) + (e << 6) + f - 0x82082080
  }

  function Utf8Value(s: Units, n: nat): bv32
    requires 1 <= n <= 6 && n <= |s|
  {
    if n == 1 then s[0]
    else if n == 2 then Value2(s[0], s[1])
    else if n == 3 then Value3(s[0], s[1], s[2])
    else if n == 4 then Value4(s[0], s[1], s[2], s[3])
    else if n == 5 then Value5(s[0], s[1], s[2], s[3], s[4])
    else Value6(s[0], s[1], s[2], s[3], s[4], s[5])
  }

  function Value16(a: bv32, b: bv32): bv32 {
    (a << 10) + b - 0x35FDC00
  }

  /** `read` with a callback that throws at the end of the range. */
  function ReadOne(e: Encoding, s: Units): (r: ReadResult)
    ensures r.Read? ==> s != [] && CharSize(e, s[0]) == Some(r.size) && r.size <= |s|
  {
    if s == [] then ReadError(NotEnoughInput)
    else match e
      case Utf8 =>
        (match CharSize(Utf8, s[0])
         case None => ReadError(BadFirst)
         case Some(n) =>
           match Continuation(s, 1, n)
           case Some(error) => ReadError(error)
           case None => Read(Utf8Value(s, n), n))
      case Utf16 =>
        if s[0] < 0xD800 then Read(s[0], 1)
        else if s[0] < 0xDC00 then
          if |s| < 2 then ReadError(NotEnoughInput)
          else if s[1] >> 10 != 0x37 then ReadError(LowExpected)
          else Read(Value16(s[0], s[1]), 2)
        else if s[0] < 0xE000 then ReadError(HighExpected)
        else Read(s[0], 1)
  }

  function Byte(x: bv32): (r: bv32)
    ensures r < 0x100
  {
    x & 0xFF
  }

  function Word(x: bv32): (r: bv32)
    ensures r < 0x1_0000
  {
    x & 0xFFFF
  }

  /** A continuation unit with the low six bits of x. */
  function Tail(x: bv32): (r: bv32)
    ensures r < 0x100
  {
    Byte(0x80 | (x & 0x3F))
  }

  function High(cp: bv32): (r: bv32)
    ensures r < 0x1_0000
  {
    Word(0xD7C0 + (cp >> 10))
  }

  function Low(cp: bv32): (r: bv32)
    ensures r < 0x1_0000
  {
    Word(0xDC00 + (cp & 0x3FF))
  }

  /** `write`. */
  function WriteOne(e: Encoding, cp: bv32): (r: WriteResult)
    ensures r.Written? ==> 1 <= |r.units| <= MaxSize(e)
  {
    match e
    case Utf8 =>
      if cp < 0x80 then Written([cp])
      else if cp < 0x800 then Written([Byte(0xC0 | (cp >> 6)), Tail(cp)])
      else if cp < 0x1_0000 then Written([Byte(0xE0 | (cp >> 12)), Tail(cp >> 6), Tail(cp)])
      else if cp < 0x20_0000 then Written([Byte(0xF0 | (cp >> 18)), Tail(cp >> 12), Tail(cp >> 6), Tail(cp)])
      else if cp < 0x400_0000 then
        Written([Byte(0xF8 | (cp >> 24)), Tail(cp >> 18), Tail(cp >> 12), Tail(cp >> 6), Tail(cp)])
      else if cp < 0x8000_0000 then
        Written([Byte(0xFC | (cp >> 30)), Tail(cp >> 24), Tail(cp >> 18), Tail(cp >> 12), Tail(cp >> 6), Tail(cp)])
      else WriteError(TooLarge)
    case Utf16 =>
      if cp < 0xD800 then Written([cp])
      else if cp < 0x1_0000 then
        if cp < 0xE000 then WriteError(InSurrogateRange) else Written([cp])
      else if cp < 0x11_0000 then Written([High(cp), Low(cp)])
      else WriteError(TooLarge)
  }

  /** The code points an encoding can write. */
  predicate Supported(e: Encoding, cp: bv32) {
    if e == Utf8 then cp < 0x8000_0000 else cp < 0xD800 || 0xE000 <= cp < 0x11_0000
  }

  lemma WriteSupported(e: Encoding, cp: bv32)
    ensures WriteOne(e, cp).Written? <==> Supported(e, cp)
  {}

  // ----- reading what was written

  lemma ContinuationPrefix(u: Units, t: Units, k: nat)
    requires 1 <= k <= |u| && forall i | k <= i < |u| :: u[i] >> 6 == 2
    ensures Continuation(u + t, k, |u|) == None
    decreases |u| - k
  {
    if k < |u| { ContinuationPrefix(u, t, k + 1); }
  }

  // The arithmetic of each length: the first unit is in its range and the folded offset restores the code point.

  lemma TailIsContinuation(x: bv32)
    ensures Tail(x) >> 6 == 2
  {}

  lemma Bits2(cp: bv32)
    requires 0x80 <= cp < 0x800
    ensures var a := (0xC0 | (cp >> 6)) & 0xFF; 0xC0 <= a < 0xE0 && Value2(a, Tail(cp)) == cp
  {}

  lemma Bits3(cp: bv32)
    requires 0x800 <= cp < 0x1_0000
    ensures var a := (0xE0 | (cp >> 12)) & 0xFF; 0xE0 <= a < 0xF0 && Value3(a, Tail(cp >> 6), Tail(cp)) == cp
  {}

  lemma Bits4(cp: bv32)
    requires 0x1_0000 <= cp < 0x20_0000
    ensures var a := (0xF0 | (cp >> 18)) & 0xFF;
            0xF0 <= a < 0xF8 && Value4(a, Tail(cp >> 12), Tail(cp >> 6), Tail(cp)) == cp
  {}

  lemma Bits5(cp: bv32)
    requires 0x20_0000 <= cp < 0x400_0000
    ensures var a := (0xF8 | (cp >> 24)) & 0xFF;
            0xF8 <= a < 0xFC && Value5(a, Tail(cp >> 18), Tail(cp >> 12), Tail(cp >> 6), Tail(cp)) == cp
  {}

  lemma Bits6(cp: bv32)
    requires 0x400_0000 <= cp < 0x8000_0000
    ensures var a := (0xFC | (cp >> 30)) & 0xFF;
            0xFC <= a < 0xFE && Value6(a, Tail(cp >> 24), Tail(cp >> 18), Tail(cp >> 12), Tail(cp >> 6), Tail(cp)) == cp
  {}

  lemma WrittenUtf8(cp: bv32)
    requires cp < 0x8000_0000
    ensures var u := WriteOne(Utf8, cp).units;
            CharSize(Utf8, u[0]) == Some(|u|) && Utf8Value(u, |u|) == cp
  {
    if cp < 0x80 {
    } else if cp < 0x800 { Bits2(cp); }
    else if cp < 0x1_0000 { Bits3(cp); }
    else if cp < 0x20_0000 { Bits4(cp); }
    else if cp < 0x400_0000 { Bits5(cp); }
    else { Bits6(cp); }
  }

  /** All units but the first are continuation units, and all fit a byte. */
  predicate Tailed(u: Units) {
    Typed(Utf8, u) && forall i | 1 <= i < |u| :: u[i] >> 6 == 2
  }

  lemma TailedShort(cp: bv32)
    requires cp < 0x1_0000
    ensures Tailed(WriteOne(Utf8, cp).units)
  {
    TailIsContinuation(cp);
    TailIsContinuation(cp >> 6);
  }

  lemma Tailed4(cp: bv32)
    requires 0x1_0000 <= cp < 0x20_0000
    ensures Tailed(WriteOne(Utf8, cp).units)
  {
    TailIsContinuation(cp);
    TailIsContinuation(cp >> 6);
    TailIsContinuation(cp >> 12);
  }

  lemma Tailed5(cp: bv32)
    requires 0x20_0000 <= cp < 0x400_0000
    ensures Tailed(WriteOne(Utf8, cp).units)
  {
    TailIsContinuation(cp);
    TailIsContinuation(cp >> 6);
    TailIsContinuation(cp >> 12);
    TailIsContinuation(cp >> 18);
  }

  lemma Tailed6(cp: bv32)
    requires 0x400_0000 <= cp < 0x8000_0000
    ensures Tailed(WriteOne(Utf8, cp).units)
  {
    TailIsContinuation(cp);
    TailIsContinuation(cp >> 6);
    TailIsContinuation(cp >> 12);
    TailIsContinuation(cp >> 18);
    TailIsContinuation(cp >> 24);
  }

  lemma WrittenTailed(cp: bv32)
    requires cp < 0x8000_0000
    ensures Tailed(WriteOne(Utf8, cp).units)
  {
    if cp < 0x1_0000 { TailedShort(cp); }
    else if cp < 0x20_0000 { Tailed4(cp); }
    else if cp < 0x400_0000 { Tailed5(cp); }
    else { Tailed6(cp); }
  }

  /** What is written fits the character type. */
  lemma WriteTyped(e: Encoding, cp: bv32)
    requires Supported(e, cp)
    ensures WriteOne(e, cp).Written? && Typed(e, WriteOne(e, cp).units)
  {
    WriteSupported(e, cp);
    if e == Utf8 { WrittenTailed(cp); }
  }

  lemma ValuePrefix(u: Units, t: Units, n: nat)
    requires 1 <= n <= 6 && n <= |u|
    ensures Utf8Value(u + t, n) == Utf8Value(u, n)
  {}

  lemma ReadWritten8(u: Units, cp: bv32, t: Units)
    requires u != [] && CharSize(Utf8, u[0]) == Some(|u|) && Utf8Value(u, |u|) == cp
    requires forall i | 1 <= i < |u| :: u[i] >> 6 == 2
    ensures ReadOne(Utf8, u + t) == Read(cp, |u|)
  {
    ContinuationPrefix(u, t, 1);
    ValuePrefix(u, t, |u|);
  }

  lemma PairValue(cp: bv32)
    requires 0x1_0000 <= cp < 0x11_0000
    ensures Value16(High(cp), Low(cp)) == cp
  {}

  lemma PairHigh(cp: bv32)
    requires 0x1_0000 <= cp < 0x11_0000
    ensures 0xD800 <= High(cp) < 0xDC00
  {}

  lemma PairLow(cp: bv32)
    ensures Low(cp) >> 10 == 0x37
  {}

  lemma ReadPair(a: bv32, b: bv32, t: Units)
    requires IsPair(a, b)
    ensures ReadOne(Utf16, [a, b] + t) == Read(Value16(a, b), 2)
  {
    var s := [a, b] + t;
    assert s[0] == a && s[1] == b;
  }

  predicate IsPair(a: bv32, b: bv32) {
    0xD800 <= a < 0xDC00 && b >> 10 == 0x37
  }

  lemma WrittenPair(cp: bv32)
    requires 0x1_0000 <= cp < 0x11_0000
    ensures IsPair(High(cp), Low(cp)) && Value16(High(cp), Low(cp)) == cp
  {
    PairValue(cp);
    PairHigh(cp);
    PairLow(cp);
  }

  lemma WriteOne16(cp: bv32)
    requires Supported(Utf16, cp)
    ensures WriteOne(Utf16, cp) == Written(if cp < 0x1_0000 then [cp] else [High(cp), Low(cp)])
  {}

  lemma ReadWritten16(cp: bv32, t: Units)
    requires Supported(Utf16, cp)
    ensures var u := WriteOne(Utf16, cp).units; ReadOne(Utf16, u + t) == Read(cp, |u|)
  {
    WriteOne16(cp);
    if cp >= 0x1_0000 {
      WrittenPair(cp);
      ReadPair(High(cp), Low(cp), t);
    } else {
      assert ([cp] + t)[0] == cp;
    }
  }

  /** Reading back a written code point, whatever follows it. */
  lemma ReadWritten(e: Encoding, cp: bv32, t: Units)
    requires Supported(e, cp)
    ensures var u := WriteOne(e, cp).units; ReadOne(e, u + t) == Read(cp, |u|)
  {
    WriteSupported(e, cp);
    match e
    case Utf8 =>
      WrittenUtf8(cp);
      WrittenTailed(cp);
      ReadWritten8(WriteOne(e, cp).units, cp, t);
    case Utf16 => ReadWritten16(cp, t);
  }

  // ----- what is read and written, bit by bit

  lemma PairBits(a: bv32, b: bv32)
    requires IsPair(a, b)
    ensures Value16(a, b) == 0x1_0000 + (((a & 0x3FF) << 10) | (b & 0x3FF))
  {}

  /** A unit of UTF-16 outside the surrogates is its own code point; a pair holds the upper and the lower ten bits of
      what its code point exceeds 0x10000 by. */
  lemma ReadBits16(s: Units)
    requires ReadOne(Utf16, s).Read?
    ensures var r := ReadOne(Utf16, s);
            if r.size == 1 then r.cp == s[0] && s[0] >> 11 != 0x1B
            else
              && r.size == 2 && s[0] >> 10 == 0x36 && s[1] >> 10 == 0x37
              && r.cp == 0x1_0000 + (((s[0] & 0x3FF) << 10) | (s[1] & 0x3FF))
  {
    SurrogateBits(s[0]);
    if 0xD800 <= s[0] < 0xDC00 { PairBits(s[0], s[1]); }
  }

  lemma SurrogateBits(a: bv32)
    ensures 0xD800 <= a < 0xDC00 <==> a >> 10 == 0x36
    ensures 0xDC00 <= a < 0xE000 <==> a >> 10 == 0x37
    ensures a >> 11 == 0x1B <==> a >> 10 == 0x36 || a >> 10 == 0x37
  {}

  lemma PairUnits(cp: bv32)
    requires 0x1_0000 <= cp < 0x11_0000
    ensures High(cp) == 0xD800 | ((cp - 0x1_0000) >> 10) && Low(cp) == 0xDC00 | ((cp - 0x1_0000) & 0x3FF)
  {}

  /** A code point up to 0xFFFF is written as itself, and a larger one as its upper and its lower ten bits above
      0x10000 in a high and a low surrogate. */
  lemma WriteBits16(cp: bv32)
    requires Supported(Utf16, cp)
    ensures WriteOne(Utf16, cp) ==
      Written(if cp < 0x1_0000 then [cp]
              else [0xD800 | ((cp - 0x1_0000) >> 10), 0xDC00 | ((cp - 0x1_0000) & 0x3FF)])
  {
    WriteOne16(cp);
    if cp >= 0x1_0000 { PairUnits(cp); }
  }

  lemma ContinuationExact(s: Units, k: nat, n: nat)
    requires 1 <= k <= n
    ensures Continuation(s, k, n) == None <==> n <= |s| && forall i | k <= i < n :: s[i] >> 6 == 2
    ensures Continuation(s, k, n) == Some(NotEnoughInput) <==>
      |s| < n && forall i | k <= i < |s| :: s[i] >> 6 == 2
    ensures Continuation(s, k, n) == Some(BadContinuation) <==>
      exists i :: k <= i < n && i < |s| && s[i] >> 6 != 2
    decreases n - k
  {
    if k < n && k < |s| { ContinuationExact(s, k + 1, n); }
  }

  /** Which error reading UTF-8 ends with: a malformed continuation unit comes before a missing one. */
  lemma ReadErrors8(s: Units)
    ensures ReadOne(Utf8, s) == ReadError(BadFirst) <==> s != [] && CharSize(Utf8, s[0]).None?
    ensures ReadOne(Utf8, s) == ReadError(NotEnoughInput) <==>
      s == [] || (CharSize(Utf8, s[0]).Some? && |s| < CharSize(Utf8, s[0]).value &&
                  forall i | 1 <= i < |s| :: s[i] >> 6 == 2)
    ensures ReadOne(Utf8, s) == ReadError(BadContinuation) <==>
      s != [] && CharSize(Utf8, s[0]).Some? &&
      exists i :: 1 <= i < CharSize(Utf8, s[0]).value && i < |s| && s[i] >> 6 != 2
  {
    if s != [] && CharSize(Utf8, s[0]).Some? { ContinuationExact(s, 1, CharSize(Utf8, s[0]).value); }
  }

  /** Which error reading UTF-16 ends with. */
  lemma ReadErrors16(s: Units)
    ensures ReadOne(Utf16, s) == ReadError(HighExpected) <==> s != [] && 0xDC00 <= s[0] < 0xE000
    ensures ReadOne(Utf16, s) == ReadError(LowExpected) <==>
      |s| > 1 && 0xD800 <= s[0] < 0xDC00 && s[1] >> 10 != 0x37
    ensures ReadOne(Utf16, s) == ReadError(NotEnoughInput) <==> s == [] || (|s| == 1 && 0xD800 <= s[0] < 0xDC00)
  {}

  /** Which error writing ends with. */
  lemma WriteErrors(e: Encoding, cp: bv32)
    ensures WriteOne(e, cp) == WriteError(TooLarge) <==> cp >= (if e == Utf8 then 0x8000_0000 else 0x11_0000)
    ensures WriteOne(e, cp) == WriteError(InSurrogateRange) <==> e == Utf16 && cp >> 11 == 0x1B
  {
    SurrogateBits(cp);
  }

  // ----- writing what was read

  lemma Surrogates(a: bv32, b: bv32)
    requires 0xD800 <= a < 0xDC00 && b < 0x1_0000 && b >> 10 == 0x37
    ensures var cp := Value16(a, b); 0x1_0000 <= cp < 0x11_0000 && High(cp) == a && Low(cp) == b
  {}

  /** UTF-16 is read and written one to one: what was read is written back as it was. */
  lemma WriteRead16(s: Units)
    requires Typed(Utf16, s) && ReadOne(Utf16, s).Read?
    ensures var r := ReadOne(Utf16, s); WriteOne(Utf16, r.cp) == Written(s[..r.size])
  {
    if 0xD800 <= s[0] < 0xDC00 { Surrogates(s[0], s[1]); }
  }
}
