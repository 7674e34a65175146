/** The loops over ranges of code units: reading through a callback that checks for the end of the range or one that
    does not, conversion with and without the unchecked fast part, and counting. */
module Converters {
  import opened Basics
  import opened Utf
  import opened Transcoding

  /** A unit from the callback, or the error that it or the codec throws. */
  datatype Fetch = Fetched(unit: bv32) | Failed(error: Error) {
    predicate IsFailure() { Failed? }
    function PropagateFailure(): ReadResult requires Failed? { ReadError(error) }
    function Extract(): bv32 requires Fetched? { unit }
  }

  /** What reading a UTF-8 sequence that announces n units leads to. */
  ghost function Announced(s: Units, n: nat): ReadResult
    requires s != [] && 1 <= n <= 6
  {
    match Continuation(s, 1, n)
    case Some(error) => ReadError(error)
    case None => Read(Utf8Value(s, n), n)
  }

  /** An iterator into a range of units. */
  class Cursor {
    const data: Units
    var it: nat

    constructor (data: Units)
      ensures this.data == data && it == 0
    {
      this.data, it := data, 0;
    }

    function Rest(): Units
      requires it <= |data|
      reads this
    {
      data[it..]
    }

    /** The callback: without the check it must not be called at the end. */
    method Next(checked: bool) returns (u: Fetch)
      requires it <= |data| && (!checked ==> it < |data|)
      modifies this`it
      ensures it <= |data|
      ensures if old(it) == |data| then u == Failed(NotEnoughInput) && it == old(it)
              else u == Fetched(data[old(it)]) && it == old(it) + 1
    {
      if checked && it == |data| {
        return Failed(NotEnoughInput);
      }
      u := Fetched(data[it]);
      it := it + 1;
    }

    /** The k-th unit of a UTF-8 sequence of n units that began k units ago. */
    method NextTail(checked: bool, ghost s: Units, ghost k: nat, ghost n: nat) returns (u: Fetch)
      requires it <= |data| && (!checked ==> it < |data|)
      requires k <= it && s == data[it - k..] && 1 <= k < n <= 6
      requires Continuation(s, 1, n) == Continuation(s, k, n)
      modifies this`it
      ensures it <= |data|
      ensures u.Failed? ==> Announced(s, n) == ReadError(u.error)
      ensures u.Fetched? ==>
        it == old(it) + 1 && k < |s| && u.unit == s[k] && Continuation(s, 1, n) == Continuation(s, k + 1, n)
    {
      u := Next(checked);
      if u.Failed? {
        return;
      }
      if u.unit >> 6 != 2 {
        return Failed(BadContinuation);
      }
    }

    // `utf8::read` for each announced size, after the first unit.

    method Read2(checked: bool, ch0: bv32, ghost s: Units) returns (r: ReadResult)
      requires 0 < it <= |data| && s == data[it - 1..] && s[0] == ch0 && (!checked ==> it + 1 <= |data|)
      modifies this`it
      ensures it <= |data| && r == Announced(s, 2) && (r.Read? ==> it == old(it) + 1)
    {
      var ch1 :- NextTail(checked, s, 1, 2);
      r := Read(Value2(ch0, ch1), 2);
    }

    method Read3(checked: bool, ch0: bv32, ghost s: Units) returns (r: ReadResult)
      requires 0 < it <= |data| && s == data[it - 1..] && s[0] == ch0 && (!checked ==> it + 2 <= |data|)
      modifies this`it
      ensures it <= |data| && r == Announced(s, 3) && (r.Read? ==> it == old(it) + 2)
    {
      var ch1 :- NextTail(checked, s, 1, 3);
      var ch2 :- NextTail(checked, s, 2, 3);
      r := Read(Value3(ch0, ch1, ch2), 3);
    }

    method Read4(checked: bool, ch0: bv32, ghost s: Units) returns (r: ReadResult)
      requires 0 < it <= |data| && s == data[it - 1..] && s[0] == ch0 && (!checked ==> it + 3 <= |data|)
      modifies this`it
      ensures it <= |data| && r == Announced(s, 4) && (r.Read? ==> it == old(it) + 3)
    {
      var ch1 :- NextTail(checked, s, 1, 4);
      var ch2 :- NextTail(checked, s, 2, 4);
      var ch3 :- NextTail(checked, s, 3, 4);
      r := Read(Value4(ch0, ch1, ch2, ch3), 4);
    }

    method Read5(checked: bool, ch0: bv32, ghost s: Units) returns (r: ReadResult)
      requires 0 < it <= |data| && s == data[it - 1..] && s[0] == ch0 && (!checked ==> it + 4 <= |data|)
      modifies this`it
      ensures it <= |data| && r == Announced(s, 5) && (r.Read? ==> it == old(it) + 4)
    {
      var ch1 :- NextTail(checked, s, 1, 5);
      var ch2 :- NextTail(checked, s, 2, 5);
      var ch3 :- NextTail(checked, s, 3, 5);
      var ch4 :- NextTail(checked, s, 4, 5);
      r := Read(Value5(ch0, ch1, ch2, ch3, ch4), 5);
    }

    method Read6(checked: bool, ch0: bv32, ghost s: Units) returns (r: ReadResult)
      requires 0 < it <= |data| && s == data[it - 1..] && s[0] == ch0 && (!checked ==> it + 5 <= |data|)
      modifies this`it
      ensures it <= |data| && r == Announced(s, 6) && (r.Read? ==> it == old(it) + 5)
    {
      var ch1 :- NextTail(checked, s, 1, 6);
      var ch2 :- NextTail(checked, s, 2, 6);
      var ch3 :- NextTail(checked, s, 3, 6);
      var ch4 :- NextTail(checked, s, 4, 6);
      var ch5 :- NextTail(checked, s, 5, 6);
      r := Read(Value6(ch0, ch1, ch2, ch3, ch4, ch5), 6);
    }

    /** `utf8::read`. */
    method ReadUtf8(checked: bool) returns (r: ReadResult)
      requires it <= |data| && (!checked ==> it + MaxSize(Utf8) <= |data|)
      modifies this`it
      ensures it <= |data| && r == ReadOne(Utf8, old(Rest()))
      ensures r.Read? ==> it == old(it) + r.size
    {
      ghost var s := Rest();
      var ch0 :- Next(checked);
      if ch0 < 0x80 {
        r := Read(ch0, 1);
      } else if ch0 < 0xC0 {
        r := ReadError(BadFirst);
      } else if ch0 < 0xE0 {
        r := Read2(checked, ch0, s);
      } else if ch0 < 0xF0 {
        r := Read3(checked, ch0, s);
      } else if ch0 < 0xF8 {
        r := Read4(checked, ch0, s);
      } else if ch0 < 0xFC {
        r := Read5(checked, ch0, s);
      } else if ch0 < 0xFE {
        r := Read6(checked, ch0, s);
      } else {
        r := ReadError(BadFirst);
      }
    }

    /** `utf16::read`. */
    method ReadUtf16(checked: bool) returns (r: ReadResult)
      requires it <= |data| && (!checked ==> it + MaxSize(Utf16) <= |data|)
      modifies this`it
      ensures it <= |data| && r == ReadOne(Utf16, old(Rest()))
      ensures r.Read? ==> it == old(it) + r.size
    {
      var ch0 :- Next(checked);
      if ch0 < 0xD800 {
        return Read(ch0, 1);
      }
      if ch0 < 0xDC00 {
        var ch1 :- Next(checked);
        if ch1 >> 10 != 0x37 {
          return ReadError(LowExpected);
        }
        return Read(Value16(ch0, ch1), 2);
      }
      if ch0 < 0xE000 {
        return ReadError(HighExpected);
      }
      r := Read(ch0, 1);
    }

    method ReadCodePoint(e: Encoding, checked: bool) returns (r: ReadResult)
      requires it <= |data| && (!checked ==> it + MaxSize(e) <= |data|)
      modifies this`it
      ensures it <= |data| && r == ReadOne(e, old(Rest()))
      ensures r.Read? ==> it == old(it) + r.size
    {
      match e
      case Utf8 => r := ReadUtf8(checked);
      case Utf16 => r := ReadUtf16(checked);
    }
  }

  /** What is written so far and what is still to come make up the conversion of the whole range. */
  ghost predicate Underway(from: Encoding, to: Encoding, all: Units, out: Units, rest: Units) {
    var c := Convert(from, to, rest);
    Convert(from, to, all) == Converted(out + c.units, c.error)
  }

  lemma UnderwayStep(from: Encoding, to: Encoding, all: Units, out: Units, rest: Units)
    requires Underway(from, to, all, out, rest) && rest != []
    ensures out + [] == out
    ensures var r := ReadOne(from, rest);
            && (r.ReadError? ==> Convert(from, to, all) == Converted(out, Some(r.error)))
            && (r.Read? && WriteOne(to, r.cp).WriteError? ==>
                  Convert(from, to, all) == Converted(out, Some(WriteOne(to, r.cp).error)))
            && (r.Read? && WriteOne(to, r.cp).Written? ==>
                  Underway(from, to, all, out + WriteOne(to, r.cp).units, rest[r.size..]))
  {
    var r := ReadOne(from, rest);
    ConvertStep(from, to, rest);
    if r.Read? && WriteOne(to, r.cp).Written? {
      ConcatUnits(out, WriteOne(to, r.cp).units, Convert(from, to, rest[r.size..]).units);
    }
  }

  lemma ConcatUnits(a: Units, b: Units, c: Units)
    ensures a + (b + c) == a + b + c && a + [] == a
  {}

  /** One pass of a conversion loop. */
  method ConvertOne(from: Encoding, to: Encoding, cursor: Cursor, checked: bool, out: Units)
    returns (written: Units, error: Option<Error>)
    requires cursor.it < |cursor.data| && (!checked ==> cursor.it + MaxSize(from) <= |cursor.data|)
    requires Underway(from, to, cursor.data, out, cursor.Rest())
    modifies cursor`it
    ensures cursor.it <= |cursor.data|
    ensures error.Some? ==> Convert(from, to, cursor.data) == Converted(written, error)
    ensures error.None? ==> old(cursor.it) < cursor.it && Underway(from, to, cursor.data, written, cursor.Rest())
  {
    ghost var rest := cursor.Rest();
    UnderwayStep(from, to, cursor.data, out, rest);
    var r := cursor.ReadCodePoint(from, checked);
    if r.ReadError? {
      return out, Some(r.error);
    }
    assert cursor.Rest() == rest[r.size..];
    var w := WriteOne(to, r.cp);
    if w.WriteError? {
      return out, Some(w.error);
    }
    return out + w.units, None;
  }

  /** The checked loop to the end of the range. */
  method ConvertChecked(from: Encoding, to: Encoding, cursor: Cursor, out: Units)
    returns (written: Units, error: Option<Error>)
    requires cursor.it <= |cursor.data| && Underway(from, to, cursor.data, out, cursor.Rest())
    modifies cursor`it
    ensures Converted(written, error) == Convert(from, to, cursor.data)
  {
    written, error := out, None;
    while cursor.it != |cursor.data|
      invariant cursor.it <= |cursor.data| && error == None
      invariant Underway(from, to, cursor.data, written, cursor.Rest())
      decreases |cursor.data| - cursor.it
    {
      written, error := ConvertOne(from, to, cursor, true, written);
      if error.Some? {
        return;
      }
    }
    assert cursor.Rest() == [];
  }

  /** The conversion for forward iterators. */
  method ConvertNormal(from: Encoding, to: Encoding, s: Units) returns (written: Units, error: Option<Error>)
    ensures Converted(written, error) == Convert(from, to, s)
  {
    var cursor := new Cursor(s);
    assert cursor.Rest() == s;
    written, error := ConvertChecked(from, to, cursor, []);
  }

  /** The conversion for random access iterators: an unchecked loop while the longest sequence fits, then the checked
      one. It never reads past the end, and its output and its error are those of the checked loop alone. */
  method ConvertRandomAccess(from: Encoding, to: Encoding, s: Units) returns (written: Units, error: Option<Error>)
    ensures Converted(written, error) == Convert(from, to, s)
  {
    var cursor := new Cursor(s);
    assert cursor.Rest() == s;
    written, error := [], None;
    if |s| >= MaxSize(from) {
      var fastEnd := |s| - MaxSize(from);
      while cursor.it < fastEnd
        invariant cursor.it <= |s| && error == None
        invariant Underway(from, to, s, written, cursor.Rest())
        decreases |s| - cursor.it
      {
        written, error := ConvertOne(from, to, cursor, false, written);
        if error.Some? {
          return;
        }
      }
    }
    written, error := ConvertChecked(from, to, cursor, written);
  }

  /** `next_strategy` for forward iterators: steps one unit at a time and fails when the end comes too soon. */
  method AdvanceForward(s: Units, it: nat, size: nat) returns (r: Option<nat>)
    requires it < |s| && size > 0
    ensures r == if it + size <= |s| then Some(it + size) else None
  {
    var i, left := it + 1, size - 1;
    while left > 0
      invariant i + left == it + size && i <= |s|
      decreases left
    {
      if i == |s| {
        return None;
      }
      i, left := i + 1, left - 1;
    }
    r := Some(i);
  }

  /** `next_strategy` for random access iterators. */
  method AdvanceRandomAccess(s: Units, it: nat, size: nat) returns (r: Option<nat>)
    requires it < |s| && size > 0
    ensures r == if it + size <= |s| then Some(it + size) else None
  {
    if |s| - it < size {
      return None;
    }
    r := Some(it + size);
  }

  function Plus(count: nat, rest: Option<nat>): Option<nat> {
    if rest.None? then None else Some(count + rest.value)
  }

  lemma SizeStep(e: Encoding, s: Units, it: nat)
    requires it < |s|
    ensures var n := CharSize(e, s[it]);
            && (n.None? || it + n.value > |s| ==> Size(e, s[it..]) == None)
            && (n.Some? && it + n.value <= |s| ==> Size(e, s[it..]) == Plus(1, Size(e, s[it + n.value..])))
  {
    var n := CharSize(e, s[it]);
    if n.Some? && it + n.value <= |s| { assert s[it..][n.value..] == s[it + n.value..]; }
  }

  /** One pass of the counting loop. */
  method CountOne(e: Encoding, s: Units, it: nat, randomAccess: bool) returns (next: Option<nat>)
    requires it < |s|
    ensures next.None? ==> Size(e, s[it..]) == None
    ensures next.Some? ==> it < next.value <= |s| && Size(e, s[it..]) == Plus(1, Size(e, s[next.value..]))
  {
    SizeStep(e, s, it);
    var size := CharSize(e, s[it]);
    if size.None? {
      return None;
    }
    if randomAccess {
      next := AdvanceRandomAccess(s, it, size.value);
    } else {
      next := AdvanceForward(s, it, size.value);
    }
  }

  /** `size` of a range. */
  method CountCodePoints(e: Encoding, s: Units, randomAccess: bool) returns (total: Option<nat>)
    ensures total == Size(e, s)
  {
    var count, it := 0, 0;
    while it != |s|
      invariant it <= |s|
      invariant Size(e, s) == Plus(count, Size(e, s[it..]))
      decreases |s| - it
    {
      var next := CountOne(e, s, it, randomAccess);
      if next.None? {
        return None;
      }
      it, count := next.value, count + 1;
    }
    total := Some(count);
  }
}
