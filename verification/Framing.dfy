/** The Waldo wire format, as values: a command is the guard `WALDO`, a type byte, a size byte and the payload.
    `Parse` reads a whole stream at once; `Sync` is what the byte-at-a-time framer keeps of its buffer. */
module Framing {

  type byte = b: int | 0 <= b < 256

  datatype Command = Command(kind: byte, data: seq<byte>)

  datatype Parsed = Parsed(commands: seq<Command>, rest: seq<byte>)

  const GUARD: seq<byte> := [0x57, 0x41, 0x4C, 0x44, 0x4F]
  const GUARD_SIZE: nat := 5
  const HEADER_SIZE: nat := 2
  const PREFIX_SIZE: nat := GUARD_SIZE + HEADER_SIZE

  function Encode(c: Command): seq<byte>
    requires |c.data| < 256
  {
    GUARD + [c.kind, |c.data|] + c.data
  }

  // ----- the whole-stream parser

  ghost predicate GuardAt(s: seq<byte>, i: nat) {
    i + GUARD_SIZE <= |s| && s[i..i + GUARD_SIZE] == GUARD
  }

  lemma GuardAtTail(s: seq<byte>, i: nat)
    requires s != [] && i > 0
    ensures GuardAt(s, i) <==> GuardAt(s[1..], i - 1)
  {
    if i + GUARD_SIZE <= |s| {
      assert s[i..i + GUARD_SIZE] == s[1..][i - 1..i - 1 + GUARD_SIZE];
    }
  }

  /** Where the first guard starts, or the length of the stream when there is none. */
  function FirstGuard(s: seq<byte>): (i: nat)
    ensures i <= |s| && (i < |s| ==> GuardAt(s, i))
    ensures forall j: nat | j < i :: !GuardAt(s, j)
  {
    if s == [] then 0
    else if GUARD <= s then assert s[0..5] == GUARD; 0
    else
      var i := FirstGuard(s[1..]) + 1;
      assert forall j: nat | 0 < j <= i :: GuardAt(s, j) == GuardAt(s[1..], j - 1) by {
        forall j: nat | 0 < j <= i ensures GuardAt(s, j) == GuardAt(s[1..], j - 1) { GuardAtTail(s, j); }
      }
      i
  }

  lemma Suffixes(s: seq<byte>)
    requires s != []
    ensures s[0..] == s && forall i: nat | 0 < i <= |s| :: s[i..] == s[1..][i - 1..]
  {}

  /** The longest suffix that is a proper prefix of the guard. */
  function GuardTail(s: seq<byte>): (r: seq<byte>)
    ensures r < GUARD && |r| <= |s| && r == s[|s| - |r|..]
    ensures forall i: nat | i < |s| - |r| :: !(s[i..] < GUARD)
  {
    if s < GUARD then s else
      var r := GuardTail(s[1..]);
      Suffixes(s);
      r
  }

  predicate Complete(s: seq<byte>) {
    |s| >= PREFIX_SIZE && |s| >= PREFIX_SIZE + s[GUARD_SIZE + 1]
  }

  function CommandSize(s: seq<byte>): nat
    requires Complete(s)
  {
    PREFIX_SIZE + s[GUARD_SIZE + 1]
  }

  function FirstCommand(s: seq<byte>): Command
    requires Complete(s)
  {
    Command(s[GUARD_SIZE], s[PREFIX_SIZE..CommandSize(s)])
  }

  /** The commands of a stream, and what is left of it: an incomplete command or part of a guard. */
  function Parse(s: seq<byte>): (p: Parsed)
    decreases |s|
  {
    var t := s[FirstGuard(s)..];
    if t == [] then Parsed([], GuardTail(s))
    else if !Complete(t) then Parsed([], t)
    else
      var p := Parse(t[CommandSize(t)..]);
      Parsed([FirstCommand(t)] + p.commands, p.rest)
  }

  // ----- what the framer keeps

  predicate Matches(s: seq<byte>) {
    forall i: nat | i < |s| && i < GUARD_SIZE :: s[i] == GUARD[i]
  }

  /** Drops bytes from the front until what is left agrees with the guard as far as both go. */
  function Sync(s: seq<byte>): (r: seq<byte>)
    ensures Matches(r) && |r| <= |s| && r == s[|s| - |r|..]
    ensures forall i: nat | i < |s| - |r| :: !Matches(s[i..])
    decreases |s|
  {
    assert s[0..] == s;
    if Matches(s) then s else
      var r := Sync(s[1..]);
      Suffixes(s);
      r
  }

  /** The buffer between two bytes: in step with the guard, and not yet a whole command. */
  predicate Waiting(buffer: seq<byte>) {
    Matches(buffer) && !Complete(buffer)
  }

  lemma MatchesPrefix(s: seq<byte>)
    ensures Matches(s) <==> s < GUARD || GUARD <= s
  {
    if Matches(s) {
      if |s| < 5 { assert s == GUARD[..|s|]; } else { assert s[..5] == GUARD; }
    }
  }

  lemma MismatchStays(s: seq<byte>, t: seq<byte>)
    requires !Matches(s)
    ensures !Matches(s + t)
  {
    var i: nat :| i < |s| && i < GUARD_SIZE && s[i] != GUARD[i];
    assert (s + t)[i] != GUARD[i];
  }

  /** A byte that cannot begin a guard does not change what is parsed, whatever follows. */
  lemma ParseSkip(s: seq<byte>, t: seq<byte>)
    requires !Matches(s)
    ensures Parse(s + t) == Parse(s[1..] + t)
  {
    var u := s + t;
    assert u[1..] == s[1..] + t;
    MismatchStays(s, t);
    MatchesPrefix(u);
    assert FirstGuard(u) == FirstGuard(u[1..]) + 1;
    assert u[FirstGuard(u)..] == u[1..][FirstGuard(u[1..])..];
  }

  lemma {:induction false} ParseSync(s: seq<byte>, t: seq<byte>)
    ensures Parse(s + t) == Parse(Sync(s) + t)
    decreases |s|
  {
    if !Matches(s) {
      ParseSkip(s, t);
      ParseSync(s[1..], t);
    }
  }

  lemma ParseAtGuard(s: seq<byte>, t: seq<byte>)
    requires Matches(s) && Complete(s)
    ensures Parse(s + t) == Prepend(FirstCommand(s), Parse(s[CommandSize(s)..] + t))
  {
    var u := s + t;
    MatchesPrefix(s);
    assert GUARD <= u;
    assert u[FirstGuard(u)..] == u;
    assert FirstCommand(u) == FirstCommand(s);
    assert u[CommandSize(u)..] == s[CommandSize(s)..] + t;
  }

  lemma ParseWaiting(s: seq<byte>)
    requires Waiting(s)
    ensures Parse(s) == Parsed([], s)
  {
    MatchesPrefix(s);
    if s < GUARD {
      assert FirstGuard(s) == |s|;
      assert s[|s|..] == [];
    } else {
      assert s[FirstGuard(s)..] == s;
    }
  }

  /** One byte of streaming refines the whole-stream parser: either it completes exactly the command that heads
      the stream, or it leaves the same stream to be parsed. */
  lemma FeedRefinesParse(buffer: seq<byte>, x: byte, future: seq<byte>, stream: seq<byte>)
    requires Waiting(buffer) && stream == buffer + [x] + future
    ensures var b := Sync(buffer + [x]);
            if Complete(b) then
              |b| == CommandSize(b) && Parse(stream) == Prepend(FirstCommand(b), Parse(future))
            else
              Waiting(b) && Parse(stream) == Parse(b + future)
  {
    var b := Sync(buffer + [x]);
    ParseSync(buffer + [x], future);
    if Complete(b) {
      CompleteAtOnce(buffer, x);
      ParseAtGuard(b, future);
      assert b[CommandSize(b)..] + future == future;
    }
  }

  /** A buffer that becomes a whole command has lost no byte and holds nothing beyond the command. */
  lemma CompleteAtOnce(buffer: seq<byte>, x: byte)
    requires Waiting(buffer) && Complete(Sync(buffer + [x]))
    ensures Sync(buffer + [x]) == buffer + [x] && |buffer + [x]| == CommandSize(buffer + [x])
  {
    assert |buffer| >= 6;
    assert Matches(buffer + [x]);
  }

  // ----- streaming

  function Prepend(c: Command, p: Parsed): Parsed {
    Parsed([c] + p.commands, p.rest)
  }

  /** One byte into the buffer: the command it completes, if any, and the buffer after it. */
  function Push(buffer: seq<byte>, x: byte): Parsed {
    var b := Sync(buffer + [x]);
    if Complete(b) then Parsed([FirstCommand(b)], []) else Parsed([], b)
  }

  lemma EmptyConcat(s: seq<byte>)
    ensures [] + s == s
  {}

  lemma PushRefinesParse(buffer: seq<byte>, x: byte, future: seq<byte>)
    requires Waiting(buffer)
    ensures var p := Push(buffer, x);
            Waiting(p.rest) && Parse(buffer + ([x] + future)) == Then(p, Parse(p.rest + future))
  {
    var stream := buffer + ([x] + future);
    ConcatSplit(buffer, [x], future);
    EmptyConcat(future);
    FeedRefinesParse(buffer, x, future, stream);
  }

  /** `FeedRefinesParse` for a buffer to which the first unread byte has just been added. */
  lemma ReadRefinesParse(before: seq<byte>, x: byte, future: seq<byte>, buffer: seq<byte>, stream: seq<byte>)
    requires Waiting(before) && buffer == before + [x] && stream == before + ([x] + future)
    ensures var b := Sync(buffer);
            if Complete(b) then
              |b| == CommandSize(b) && Parse(stream) == Prepend(FirstCommand(b), Parse([] + future))
            else
              Waiting(b) && Parse(stream) == Parse(b + future)
  {
    ConcatSplit(before, [x], future);
    EmptyConcat(future);
    FeedRefinesParse(before, x, future, stream);
  }

  function Then(p: Parsed, q: Parsed): Parsed {
    Parsed(p.commands + q.commands, q.rest)
  }

  lemma ThenAssociative(p: Parsed, q: Parsed, r: Parsed)
    ensures Then(Then(p, q), r) == Then(p, Then(q, r))
  {}

  /** The framer fed with `s`, one byte at a time: the commands it yields and the buffer it ends with. */
  function Feed(buffer: seq<byte>, s: seq<byte>): Parsed
    decreases |s|
  {
    if s == [] then Parsed([], buffer)
    else
      var p := Push(buffer, s[0]);
      Then(p, Feed(p.rest, s[1..]))
  }

  lemma {:induction false} FeedIsParse(buffer: seq<byte>, s: seq<byte>)
    requires Waiting(buffer)
    ensures Feed(buffer, s) == Parse(buffer + s)
    decreases |s|
  {
    if s == [] {
      assert buffer + s == buffer;
      ParseWaiting(buffer);
    } else {
      PushRefinesParse(buffer, s[0], s[1..]);
      assert s == [s[0]] + s[1..];
      FeedIsParse(Push(buffer, s[0]).rest, s[1..]);
    }
  }

  function Concat(batches: seq<seq<byte>>): seq<byte> {
    if batches == [] then [] else batches[0] + Concat(batches[1..])
  }

  /** The framer fed batch by batch. */
  function FeedBatches(buffer: seq<byte>, batches: seq<seq<byte>>): Parsed
    decreases |batches|
  {
    if batches == [] then Parsed([], buffer)
    else
      var p := Feed(buffer, batches[0]);
      Then(p, FeedBatches(p.rest, batches[1..]))
  }

  lemma FeedWaiting(buffer: seq<byte>, s: seq<byte>)
    requires Waiting(buffer)
    ensures Waiting(Feed(buffer, s).rest)
    decreases |s|
  {
    if s != [] {
      PushRefinesParse(buffer, s[0], s[1..]);
      FeedWaiting(Push(buffer, s[0]).rest, s[1..]);
    }
  }

  lemma {:induction false} FeedSplit(buffer: seq<byte>, s: seq<byte>, t: seq<byte>)
    ensures Feed(buffer, s + t) == Then(Feed(buffer, s), Feed(Feed(buffer, s).rest, t))
    decreases |s|
  {
    if s == [] {
      assert s + t == t;
    } else {
      var p := Push(buffer, s[0]);
      assert (s + t)[1..] == s[1..] + t;
      FeedSplit(p.rest, s[1..], t);
      ThenAssociative(p, Feed(p.rest, s[1..]), Feed(Feed(p.rest, s[1..]).rest, t));
    }
  }

  /** Streaming refines batch: from any waiting buffer and for every split of a byte stream into batches, the
      framer yields exactly the commands of the whole-stream parser and keeps exactly what it leaves over. */
  lemma {:induction false} StreamingRefinesBatch(buffer: seq<byte>, batches: seq<seq<byte>>)
    requires Waiting(buffer)
    ensures FeedBatches(buffer, batches) == Parse(buffer + Concat(batches))
    decreases |batches|
  {
    FeedIsParse(buffer, Concat(batches));
    if batches != [] {
      var p := Feed(buffer, batches[0]);
      FeedWaiting(buffer, batches[0]);
      FeedSplit(buffer, batches[0], Concat(batches[1..]));
      StreamingRefinesBatch(p.rest, batches[1..]);
      FeedIsParse(p.rest, Concat(batches[1..]));
    }
  }

  // ----- encoding and resynchronising

  lemma ParseEncoded(c: Command, t: seq<byte>)
    requires |c.data| < 256
    ensures Parse(Encode(c) + t) == Prepend(c, Parse(t))
  {
    var s := Encode(c);
    assert FirstCommand(s) == c;
    assert s[CommandSize(s)..] + t == t;
    ParseAtGuard(s, t);
  }

  ghost predicate GuardFree(s: seq<byte>) {
    forall i: nat :: !GuardAt(s, i)
  }

  lemma GuardFreeTail(g: seq<byte>)
    requires GuardFree(g) && g != []
    ensures GuardFree(g[1..])
  {
    forall i: nat ensures !GuardAt(g[1..], i) {
      GuardAtTail(g, i + 1);
    }
  }

  /** Bytes without a guard in front of a guard are skipped: the guard has no proper border, so it cannot start
      inside them. */
  lemma {:induction false} ParseGarbage(g: seq<byte>, t: seq<byte>)
    requires GuardFree(g)
    ensures Parse(g + (GUARD + t)) == Parse(GUARD + t)
    decreases |g|
  {
    if g == [] {
      assert g + (GUARD + t) == GUARD + t;
    } else {
      NoBorder(g);
      ParseSkip(g + GUARD, t);
      GuardFreeTail(g);
      ParseGarbage(g[1..], t);
      ConcatSplit(g, GUARD, t);
    }
  }

  lemma ConcatSplit(a: seq<byte>, b: seq<byte>, c: seq<byte>)
    ensures a + b + c == a + (b + c)
    ensures a != [] ==> (a + b)[1..] + c == a[1..] + (b + c)
  {}

  lemma NoBorder(g: seq<byte>)
    requires g != [] && !GuardAt(g, 0)
    ensures !Matches(g + GUARD)
  {
    var u := g + GUARD;
    if |g| >= 5 {
      var i :| 0 <= i < 5 && g[0..5][i] != GUARD[i];
      assert u[i] != GUARD[i];
    } else {
      assert u[|g|] == GUARD[0] != GUARD[|g|];
    }
  }

  /** A command preceded by line noise. */
  datatype Noisy = Noisy(garbage: seq<byte>, command: Command)

  ghost predicate Sendable(ms: seq<Noisy>) {
    forall i | 0 <= i < |ms| :: |ms[i].command.data| < 256
  }

  ghost predicate CleanNoise(ms: seq<Noisy>) {
    forall i | 0 <= i < |ms| :: GuardFree(ms[i].garbage)
  }

  ghost function Transmit(ms: seq<Noisy>): seq<byte>
    requires Sendable(ms)
  {
    if ms == [] then [] else ms[0].garbage + (Encode(ms[0].command) + Transmit(ms[1..]))
  }

  ghost function CommandsOf(ms: seq<Noisy>): seq<Command> {
    if ms == [] then [] else [ms[0].command] + CommandsOf(ms[1..])
  }

  /** Resynchronising round trip: whatever guard-free noise comes before and between encoded commands, and
      whatever their payloads contain, exactly those commands are parsed and nothing is left over. */
  lemma {:induction false} NoisyRoundTrip(ms: seq<Noisy>)
    requires Sendable(ms) && CleanNoise(ms)
    ensures Parse(Transmit(ms)) == Parsed(CommandsOf(ms), [])
  {
    if ms != [] {
      NoisyRoundTrip(ms[1..]);
      NoisyCommand(ms[0].garbage, ms[0].command, Transmit(ms[1..]));
    }
  }

  lemma NoisyCommand(g: seq<byte>, c: Command, t: seq<byte>)
    requires GuardFree(g) && |c.data| < 256
    ensures Parse(g + (Encode(c) + t)) == Prepend(c, Parse(t))
  {
    var u := [c.kind, |c.data|] + c.data + t;
    assert Encode(c) + t == GUARD + u;
    ParseGarbage(g, u);
    ParseEncoded(c, t);
  }

  /** How far streaming can get behind: a mismatch leaves nothing but a byte that begins a new guard, because no
      later byte of the guard is its first. */
  lemma MismatchLeavesAtMostOneByte(buffer: seq<byte>, x: byte)
    requires Matches(buffer) && !Matches(buffer + [x])
    ensures Sync(buffer + [x]) == (if x == GUARD[0] then [x] else [])
  {
    var u, r := buffer + [x], Sync(buffer + [x]);
    assert u[0..] == u;
    ShortRest(buffer, x, r);
    LastByte(u, r);
  }

  /** No later byte of the guard is its first, so what agrees with the guard does not start inside the buffer. */
  lemma ShortRest(buffer: seq<byte>, x: byte, r: seq<byte>)
    requires Matches(buffer) && !Matches(buffer + [x]) && Matches(r)
    requires |r| <= |buffer| + 1 && r == (buffer + [x])[|buffer| + 1 - |r|..]
    ensures |r| <= 1
  {
    assert (buffer + [x])[0..] == buffer + [x];
    assert r != [] ==> r[0] == (buffer + [x])[|buffer| + 1 - |r|];
  }

  lemma LastByte(u: seq<byte>, r: seq<byte>)
    requires u != [] && |r| <= 1 && r == u[|u| - |r|..] && Matches(r)
    requires forall i: nat | i < |u| - |r| :: !Matches(u[i..])
    ensures r == if u[|u| - 1] == GUARD[0] then [u[|u| - 1]] else []
  {
    assert u[|u| - 1..] == [u[|u| - 1]];
  }
}
