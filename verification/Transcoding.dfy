/** Whole ranges of UTF text: decoding, encoding, conversion and counting, first as values and then as the loops of
    the original. */
module Transcoding {
  import opened Basics
  import opened Utf
  import opened Utf8Forms

  datatype Decoded = Decoded(cps: seq<bv32>, error: Option<Error>)

  datatype Converted = Converted(units: Units, error: Option<Error>)

  /** The code points of a range, up to the first error if there is one. */
  function Decode(e: Encoding, s: Units): Decoded
    decreases |s|
  {
    if s == [] then Decoded([], None)
    else match ReadOne(e, s)
      case ReadError(error) => Decoded([], Some(error))
      case Read(cp, n) =>
        var d := Decode(e, s[n..]);
        Decoded([cp] + d.cps, d.error)
  }

  ghost function Encode(e: Encoding, cps: seq<bv32>): Units
    requires AllSupported(e, cps)
  {
    if cps == [] then [] else
      WriteSupported(e, cps[0]);
      WriteOne(e, cps[0]).units + Encode(e, cps[1..])
  }

  /** Decoding inverts encoding for every sequence of code points the encoding can write. */
  lemma {:induction false} DecodeEncoded(e: Encoding, cps: seq<bv32>)
    requires AllSupported(e, cps)
    ensures Decode(e, Encode(e, cps)) == Decoded(cps, None)
  {
    if cps != [] {
      DecodeEncoded(e, cps[1..]);
      DecodeWritten(e, cps[0], Encode(e, cps[1..]));
    }
  }

  lemma DecodeWritten(e: Encoding, cp: bv32, t: Units)
    requires Supported(e, cp)
    ensures WriteOne(e, cp).Written?
    ensures var u := WriteOne(e, cp).units;
            Decode(e, u + t) == Decoded([cp] + Decode(e, t).cps, Decode(e, t).error)
  {
    WriteSupported(e, cp);
    ReadWritten(e, cp, t);
    var u := WriteOne(e, cp).units;
    assert (u + t)[|u|..] == t;
  }

  lemma TypedSuffix(e: Encoding, s: Units, n: nat)
    requires Typed(e, s) && n <= |s|
    ensures Typed(e, s[n..])
  {}

  ghost predicate AllSupported(e: Encoding, cps: seq<bv32>) {
    forall i | 0 <= i < |cps| :: Supported(e, cps[i])
  }

  lemma AllSupportedCons(e: Encoding, cp: bv32, cps: seq<bv32>)
    ensures AllSupported(e, [cp] + cps) <==> Supported(e, cp) && AllSupported(e, cps)
  {
    var s := [cp] + cps;
    assert s[0] == cp;
    assert forall i | 0 <= i < |cps| :: s[i + 1] == cps[i];
  }

  lemma EncodeCons(e: Encoding, cp: bv32, cps: seq<bv32>)
    requires Supported(e, cp) && AllSupported(e, cps)
    ensures WriteOne(e, cp).Written? && AllSupported(e, [cp] + cps)
    ensures Encode(e, [cp] + cps) == WriteOne(e, cp).units + Encode(e, cps)
  {
    AllSupportedCons(e, cp, cps);
    WriteSupported(e, cp);
    assert ([cp] + cps)[1..] == cps;
  }

  lemma DecodeStep(e: Encoding, s: Units)
    requires s != [] && ReadOne(e, s).Read?
    ensures var r := ReadOne(e, s); var d := Decode(e, s[r.size..]);
            Decode(e, s) == Decoded([r.cp] + d.cps, d.error)
  {}

  /** The code point `cp` is read at place i of the range, and the next place is j. */
  ghost predicate Reads(e: Encoding, s: Units, i: nat, cp: bv32, j: nat) {
    i < j <= |s| && ReadOne(e, s[i..]) == Read(cp, j - i)
  }

  ghost predicate Stops(e: Encoding, s: Units, i: nat, error: Option<Error>) {
    if error == None then i == |s| else i < |s| && ReadOne(e, s[i..]) == ReadError(error.value)
  }

  /** The places at which the code points are read from place i on, one after the other, and where that stops. */
  ghost predicate Traces(e: Encoding, s: Units, i: nat, cps: seq<bv32>, error: Option<Error>, starts: seq<nat>) {
    && |starts| == |cps| + 1 && starts[0] == i
    && (forall k: nat {:trigger cps[k]} | k < |cps| :: Reads(e, s, starts[k], cps[k], starts[k + 1]))
    && Stops(e, s, starts[|cps|], error)
  }

  lemma TracesCons(e: Encoding, s: Units, i: nat, cp: bv32, j: nat, cps: seq<bv32>, error: Option<Error>,
                   starts: seq<nat>)
    requires Reads(e, s, i, cp, j) && Traces(e, s, j, cps, error, starts)
    ensures Traces(e, s, i, [cp] + cps, error, [i] + starts)
  {
    var cps', starts' := [cp] + cps, [i] + starts;
    forall k: nat {:trigger cps'[k]} | k < |cps'| ensures Reads(e, s, starts'[k], cps'[k], starts'[k + 1]) {
      if k > 0 { assert Reads(e, s, starts[k - 1], cps[k - 1], starts[k - 1 + 1]); }
    }
  }

  lemma {:induction false} DecodeTraces(e: Encoding, s: Units, i: nat) returns (starts: seq<nat>)
    requires i <= |s|
    ensures var d := Decode(e, s[i..]); Traces(e, s, i, d.cps, d.error, starts)
    decreases |s| - i
  {
    starts := [i];
    var t := s[i..];
    if t != [] && ReadOne(e, t).Read? {
      var r := ReadOne(e, t);
      var j := i + r.size;
      assert t[r.size..] == s[j..];
      var rest := DecodeTraces(e, s, j);
      DecodeStep(e, t);
      TracesCons(e, s, i, r.cp, j, Decode(e, s[j..]).cps, Decode(e, s[j..]).error, rest);
      starts := [i] + rest;
    }
  }

  /** Decoding reads one code point after the other, each where the one before it ended. It stops at the end of the
      range, or where nothing can be read, with the error found there. */
  lemma DecodeExact(e: Encoding, s: Units) returns (starts: seq<nat>)
    ensures Traces(e, s, 0, Decode(e, s).cps, Decode(e, s).error, starts)
  {
    assert s[0..] == s;
    starts := DecodeTraces(e, s, 0);
  }

  /** Encoding inverts decoding for every valid UTF-16 range. */
  lemma {:induction false} EncodeDecoded16(s: Units)
    requires Typed(Utf16, s) && Decode(Utf16, s).error == None
    ensures AllSupported(Utf16, Decode(Utf16, s).cps)
    ensures Encode(Utf16, Decode(Utf16, s).cps) == s
    decreases |s|
  {
    if s != [] {
      var r := ReadOne(Utf16, s);
      var t := s[r.size..];
      DecodeStep(Utf16, s);
      TypedSuffix(Utf16, s, r.size);
      EncodeDecoded16(t);
      EncodeFirst16(s);
      EncodeCons(Utf16, r.cp, Decode(Utf16, t).cps);
    }
  }

  lemma EncodeFirst16(s: Units)
    requires Typed(Utf16, s) && s != [] && ReadOne(Utf16, s).Read?
    ensures var r := ReadOne(Utf16, s);
            Supported(Utf16, r.cp) && WriteOne(Utf16, r.cp).Written? && WriteOne(Utf16, r.cp).units + s[r.size..] == s
  {
    WriteRead16(s);
    WriteSupported(Utf16, ReadOne(Utf16, s).cp);
  }

  /** Re-encoding what was decoded from UTF-8 never takes more units than were read, even for overlong forms, and
      decodes to the same code points. */
  lemma {:induction false} EncodeDecoded8(s: Units)
    requires Decode(Utf8, s).error == None
    ensures AllSupported(Utf8, Decode(Utf8, s).cps)
    ensures |Encode(Utf8, Decode(Utf8, s).cps)| <= |s|
    ensures Decode(Utf8, Encode(Utf8, Decode(Utf8, s).cps)) == Decode(Utf8, s)
    decreases |s|
  {
    if s != [] {
      var r := ReadOne(Utf8, s);
      var t := s[r.size..];
      WriteRead8(s);
      EncodeDecoded8(t);
      EncodeCons(Utf8, r.cp, Decode(Utf8, t).cps);
    }
    DecodeEncoded(Utf8, Decode(Utf8, s).cps);
  }

  /** No sequence of the range is overlong. */
  predicate Shortest(s: Units)
    decreases |s|
  {
    s != [] && ReadOne(Utf8, s).Read? ==> !Overlong(s) && Shortest(s[ReadOne(Utf8, s).size..])
  }

  /** Encoding inverts decoding of a valid UTF-8 range exactly when none of its sequences is overlong. */
  lemma {:induction false} EncodeDecodedExact8(s: Units)
    requires Decode(Utf8, s).error == None
    ensures AllSupported(Utf8, Decode(Utf8, s).cps)
    ensures Encode(Utf8, Decode(Utf8, s).cps) == s <==> Shortest(s)
    decreases |s|
  {
    if s != [] {
      var r := ReadOne(Utf8, s);
      var t := s[r.size..];
      WriteRead8(s);
      EncodeDecoded8(t);
      EncodeDecodedExact8(t);
      EncodeCons(Utf8, r.cp, Decode(Utf8, t).cps);
      SplitAt(s, r.size, WriteOne(Utf8, r.cp).units, Encode(Utf8, Decode(Utf8, t).cps));
    }
  }

  lemma SplitAt(s: Units, n: nat, u: Units, t: Units)
    requires n <= |s|
    ensures u == s[..n] ==> (u + t == s <==> t == s[n..])
    ensures |u| < n && |t| <= |s| - n ==> u + t != s
  {
    if u == s[..n] && u + t == s { assert t == (u + t)[n..]; }
  }

  /** Overlong forms are decoded, so re-encoding UTF-8 does not always give back what was read. */
  lemma OverlongAccepted()
    ensures Decode(Utf8, [0xC1, 0x81]) == Decoded([0x41], None) && Encode(Utf8, [0x41]) == [0x41]
  {
    assert ReadOne(Utf8, [0xC1, 0x81]) == Read(0x41, 2);
    assert [0xC1 as bv32, 0x81][2..] == [];
    assert [0x41 as bv32][1..] == [];
  }

  // ----- conversion

  /** `conv` between two encodings: reads and writes one code point after the other until the range ends or fails. */
  function Convert(from: Encoding, to: Encoding, s: Units): Converted
    decreases |s|
  {
    if s == [] then Converted([], None)
    else match ReadOne(from, s)
      case ReadError(error) => Converted([], Some(error))
      case Read(cp, n) =>
        match WriteOne(to, cp)
        case WriteError(error) => Converted([], Some(error))
        case Written(u) =>
          var c := Convert(from, to, s[n..]);
          Converted(u + c.units, c.error)
  }

  lemma ConvertStep(from: Encoding, to: Encoding, s: Units)
    requires s != []
    ensures var r := ReadOne(from, s);
            && (r.ReadError? ==> Convert(from, to, s) == Converted([], Some(r.error)))
            && (r.Read? && WriteOne(to, r.cp).WriteError? ==>
                  Convert(from, to, s) == Converted([], Some(WriteOne(to, r.cp).error)))
            && (r.Read? && WriteOne(to, r.cp).Written? ==>
                  var c := Convert(from, to, s[r.size..]);
                  Convert(from, to, s) == Converted(WriteOne(to, r.cp).units + c.units, c.error))
  {}

  /** A conversion preserves meaning: what it has written decodes, without error, to a prefix of the source's code
      points, and to all of them when it does not fail. */
  lemma {:induction false} ConvertPreserves(from: Encoding, to: Encoding, s: Units)
    ensures var c, d := Convert(from, to, s), Decode(from, s);
            && Decode(to, c.units).error == None && Decode(to, c.units).cps <= d.cps
            && (c.error == None ==> Decode(to, c.units).cps == d.cps)
    decreases |s|
  {
    if s != [] && ReadOne(from, s).Read? {
      var r := ReadOne(from, s);
      WriteSupported(to, r.cp);
      DecodeStep(from, s);
      if Supported(to, r.cp) {
        ConvertPreserves(from, to, s[r.size..]);
        DecodeWritten(to, r.cp, Convert(from, to, s[r.size..]).units);
      }
    }
  }

  /** A conversion succeeds exactly when the source is valid and the target can write all its code points. */
  lemma {:induction false} ConvertSucceeds(from: Encoding, to: Encoding, s: Units)
    ensures Convert(from, to, s).error == None <==>
      Decode(from, s).error == None && AllSupported(to, Decode(from, s).cps)
    decreases |s|
  {
    if s != [] && ReadOne(from, s).Read? {
      var r := ReadOne(from, s);
      WriteSupported(to, r.cp);
      DecodeStep(from, s);
      ConvertSucceeds(from, to, s[r.size..]);
      AllSupportedCons(to, r.cp, Decode(from, s[r.size..]).cps);
    }
  }

  /** The conversion has written as many code points as it could: the decoding went no further, with the same error, or
      the target cannot write the next one. */
  ghost predicate StopsBehind(to: Encoding, c: Converted, d: Decoded) {
    var k := |Decode(to, c.units).cps|;
    k <= |d.cps| && if k == |d.cps| then c.error == d.error
                    else c.error.Some? && WriteOne(to, d.cps[k]) == WriteError(c.error.value)
  }

  lemma StopsBehindCons(to: Encoding, cp: bv32, c: Converted, d: Decoded)
    requires Supported(to, cp) && WriteOne(to, cp).Written? && StopsBehind(to, c, d)
    ensures StopsBehind(to, Converted(WriteOne(to, cp).units + c.units, c.error), Decoded([cp] + d.cps, d.error))
  {
    DecodeWritten(to, cp, c.units);
    var k := |Decode(to, c.units).cps|;
    assert k < |d.cps| ==> ([cp] + d.cps)[k + 1] == d.cps[k];
  }

  /** Every conversion stops exactly behind the code points it has written: at the end of the range, at the error that
      ends the decoding, or at a code point that the target cannot write. */
  lemma {:induction false} ConvertStops(from: Encoding, to: Encoding, s: Units)
    ensures StopsBehind(to, Convert(from, to, s), Decode(from, s))
    decreases |s|
  {
    if s != [] && ReadOne(from, s).Read? {
      var r := ReadOne(from, s);
      ConvertStep(from, to, s);
      WriteSupported(to, r.cp);
      DecodeStep(from, s);
      if Supported(to, r.cp) {
        ConvertStops(from, to, s[r.size..]);
        StopsBehindCons(to, r.cp, Convert(from, to, s[r.size..]), Decode(from, s[r.size..]));
      }
    }
  }

  /** What a conversion writes, even one that fails, fits the character type of the target encoding. */
  lemma {:induction false} ConvertTyped(from: Encoding, to: Encoding, s: Units)
    ensures Typed(to, Convert(from, to, s).units)
    decreases |s|
  {
    if s != [] && ReadOne(from, s).Read? {
      var r := ReadOne(from, s);
      WriteSupported(to, r.cp);
      if Supported(to, r.cp) {
        WriteTyped(to, r.cp);
        ConvertTyped(from, to, s[r.size..]);
      }
    }
  }

  lemma {:induction false} ConvertEncodes(from: Encoding, to: Encoding, s: Units)
    requires Convert(from, to, s).error == None
    ensures AllSupported(to, Decode(from, s).cps) && Convert(from, to, s).units == Encode(to, Decode(from, s).cps)
    decreases |s|
  {
    if s != [] {
      var r := ReadOne(from, s);
      WriteSupported(to, r.cp);
      DecodeStep(from, s);
      ConvertEncodes(from, to, s[r.size..]);
      EncodeCons(to, r.cp, Decode(from, s[r.size..]).cps);
    }
  }

  /** Converting gives text of the other encoding, and converting that back gives the same code points. For UTF-16 it
      gives back every valid range itself; for UTF-8 it takes no more units. */
  lemma ConvertBack(from: Encoding, to: Encoding, s: Units)
    requires Typed(from, s) && Convert(from, to, s).error == None
    ensures Typed(to, Convert(from, to, s).units)
    ensures var b := Convert(to, from, Convert(from, to, s).units);
            && b.error == None && Decode(from, b.units) == Decode(from, s)
            && if from == Utf16 then b.units == s else |b.units| <= |s|
  {
    var c := Convert(from, to, s);
    ConvertTyped(from, to, s);
    ConvertPreserves(from, to, s);
    ConvertSucceeds(from, to, s);
    ConvertSucceeds(to, from, c.units);
    DecodedSupported(from, s);
    ConvertPreserves(to, from, c.units);
    ConvertEncodes(to, from, c.units);
    if from == Utf8 { EncodeDecoded8(s); } else { EncodeDecoded16(s); }
  }

  lemma DecodedSupported(e: Encoding, s: Units)
    requires Typed(e, s) && Decode(e, s).error == None
    ensures AllSupported(e, Decode(e, s).cps)
  {
    if e == Utf8 { EncodeDecoded8(s); } else { EncodeDecoded16(s); }
  }

  // ----- counting

  /** `size` of a range: follows the announced sizes only. */
  function Size(e: Encoding, s: Units): Option<nat>
    decreases |s|
  {
    if s == [] then Some(0)
    else match CharSize(e, s[0])
      case None => None
      case Some(n) =>
        if |s| < n then None
        else match Size(e, s[n..]) { case None => None case Some(k) => Some(k + 1) }
  }

  /** On every valid range the size is the number of its code points. */
  lemma {:induction false} SizeCounts(e: Encoding, s: Units)
    requires Decode(e, s).error == None
    ensures Size(e, s) == Some(|Decode(e, s).cps|)
    decreases |s|
  {
    if s != [] {
      SizeCounts(e, s[ReadOne(e, s).size..]);
    }
  }

  /** The units after the first of a sequence of n are continuation units, or a low surrogate. */
  predicate Follow(e: Encoding, s: Units, n: nat)
    requires n <= |s|
  {
    forall i | 1 <= i < n :: if e == Utf8 then s[i] >> 6 == 2 else s[i] >> 10 == 0x37
  }

  /** In every sequence the right units follow the first. */
  predicate WellTailed(e: Encoding, s: Units)
    decreases |s|
  {
    s != [] && CharSize(e, s[0]).Some? && CharSize(e, s[0]).value <= |s| ==>
      var n := CharSize(e, s[0]).value;
      Follow(e, s, n) && WellTailed(e, s[n..])
  }

  /** Whether the range begins with a readable code point. */
  lemma ReadableExact(e: Encoding, s: Units)
    requires s != []
    ensures var size := CharSize(e, s[0]);
            ReadOne(e, s).Read? <==> size.Some? && size.value <= |s| && Follow(e, s, size.value)
  {
    if e == Utf8 && CharSize(e, s[0]).Some? { ContinuationExact(s, 1, CharSize(e, s[0]).value); }
  }

  /** Exactly what a size leaves open: a range is valid if and only if it has a size and in every sequence the right
      units follow the first. */
  lemma {:induction false} ValidExact(e: Encoding, s: Units)
    ensures Decode(e, s).error == None <==> Size(e, s).Some? && WellTailed(e, s)
    decreases |s|
  {
    if s != [] {
      ReadableExact(e, s);
      var size := CharSize(e, s[0]);
      if size.Some? && size.value <= |s| { ValidExact(e, s[size.value..]); }
    }
  }

  /** A size does not make a range valid. */
  lemma SizeIsLenient()
    ensures Size(Utf8, [0xC1, 0x41]) == Some(1) && Decode(Utf8, [0xC1, 0x41]).error == Some(BadContinuation)
  {
    assert [0xC1 as bv32, 0x41][2..] == [];
  }
}
