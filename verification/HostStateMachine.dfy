/** The host state machine and the command coders, as the objects that the original updates in place. */
module HostStateMachine {
  import opened Basics
  import opened Framing
  import opened ByteStream
  import opened HostProtocol

  class WaldoCommandDecoder {
    const command: Command

    constructor (command: Command)
      ensures this.command == command
    {
      this.command := command;
    }

    method DecodeRegisterInput() returns (input: Option<Input>)
      requires command.kind == REGISTER_INPUT ==> |command.data| >= 3
      ensures input == if command.kind == REGISTER_INPUT then Some(DecodedInput(command.data)) else None
    {
      if command.kind != REGISTER_INPUT {
        return None;
      }
      var data := command.data;
      var labelLength := |data| - 3;
      var name := "";
      for i := 0 to labelLength
        invariant name == Text(data[3..3 + i])
      {
        name := name + [data[i + 3] as char];
      }
      assert data[3..3 + labelLength] == data[3..];
      input := Some(Input(name, data[1], data[0], data[2]));
    }

    method DecodeInputValue() returns (value: Option<InputValue>)
      requires command.kind == INPUT_VALUE ==> |command.data| >= 2
      ensures value == if command.kind == INPUT_VALUE then Some(DecodedValue(command.data)) else None
    {
      if command.kind != INPUT_VALUE {
        return None;
      }
      value := Some(InputValue(command.data[0], command.data[1]));
    }

    method DecodeMessage() returns (message: Option<string>)
      ensures message == if command.kind == MESSAGE then Some(Text(command.data)) else None
    {
      if command.kind != MESSAGE {
        return None;
      }
      var text := "";
      for i := 0 to |command.data|
        invariant text == Text(command.data[..i])
      {
        text := text + [command.data[i] as char];
      }
      assert command.data[..|command.data|] == command.data;
      message := Some(text);
    }
  }

  class WaldoCommandEncoder {
    var command: Command

    constructor ()
      ensures command == Command(RESET, [])
    {
      command := Command(RESET, []);
    }

    method EncodeReset()
      modifies this
      ensures command == Command(RESET, [])
    {
      command := Command(RESET, []);
    }

    /** Each character is cut to its low eight bits. */
    method EncodeMessage(message: string)
      modifies this
      ensures command.kind == MESSAGE && |command.data| == |message|
      ensures forall i | 0 <= i < |message| :: command.data[i] == message[i] as int % 256
    {
      command := Command(MESSAGE, []);
      for i := 0 to |message|
        invariant command.kind == MESSAGE && |command.data| == i
        invariant forall k | 0 <= k < i :: command.data[k] == message[k] as int % 256
      {
        command := command.(data := command.data + [message[i] as int % 256]);
      }
    }

    method EncodeAcknowledgeReset()
      modifies this
      ensures command == Command(ACK_RESET, [])
    {
      command := Command(ACK_RESET, []);
    }

    method EncodeAcknowledgeFrame()
      modifies this
      ensures command == Command(ACK_FRAME, [])
    {
      command := Command(ACK_FRAME, []);
    }
  }

  /** A message survives being encoded and decoded exactly when all its characters fit in a byte. */
  lemma MessageRoundTrip(message: string, data: seq<byte>)
    requires |data| == |message| && forall i | 0 <= i < |message| :: data[i] == message[i] as int % 256
    ensures Text(data) == message <==> forall i | 0 <= i < |message| :: message[i] as int < 256
  {
    if Text(data) == message {
      forall i | 0 <= i < |message| ensures message[i] as int < 256 {
        assert Text(data)[i] == message[i];
      }
    }
  }

  /** A clock that does not run backwards. */
  class Clock {
    var now: real

    method GetTime() returns (t: real)
      modifies this
      ensures old(now) <= now == t
    {
      var elapsed: real :| elapsed >= 0.0;
      now := now + elapsed;
      t := now;
    }
  }

  function CommandsIn(steps: seq<Step>): seq<Command> {
    if steps == [] then []
    else CommandsIn(steps[..|steps| - 1]) + if steps[|steps| - 1].Receive? then [steps[|steps| - 1].command] else []
  }

  lemma CommandsSnoc(steps: seq<Step>, s: Step)
    ensures CommandsIn(steps + [s]) == CommandsIn(steps) + if s.Receive? then [s.command] else []
  {
    assert (steps + [s])[..|steps|] == steps;
  }

  predicate AllReceived(steps: seq<Step>) {
    forall i: nat | i < |steps| :: steps[i].Receive?
  }

  /** What was to be parsed at first is the commands taken since and what is to be parsed now. */
  ghost predicate Consumed(all: Parsed, taken: seq<Command>, now: Parsed) {
    all.commands == taken + now.commands && all.rest == now.rest
  }

  lemma ConsumedStart(all: Parsed)
    ensures Consumed(all, [], all)
  {}

  lemma ConsumedOne(all: Parsed, taken: seq<Command>, c: Command, before: Parsed, now: Parsed)
    requires Consumed(all, taken, before) && before == Prepend(c, now)
    ensures Consumed(all, taken + [c], now)
  {
    assert taken + ([c] + now.commands) == taken + [c] + now.commands;
  }

  ghost predicate LastFails(state: HostState, steps: seq<Step>) {
    steps != [] && Fails(state, steps[|steps| - 1])
  }

  /** What one pass of the loop in `Tick` does: it handles a command, times out or finds nothing. `now` counts what a
      timeout drops as still to be parsed. */
  ghost predicate Turned(before: Parsed, taken: seq<Step>, now: Parsed, state: HostState, state': HostState,
                         more: bool, ok: bool)
  {
    && |taken| <= 1 && ok == !LastFails(state', taken)
    && if taken == [] then now == before && state' == state && !more
       else if taken[0].Receive? then before == Prepend(taken[0].command, now) && more == ok
       else taken[0].Timeout? && now == before && !more
  }

  lemma TurnedSilent(before: Parsed, taken: seq<Step>, now: Parsed, state: HostState, ok: bool, time: real)
    requires now == before && if taken == [] then ok else taken == [Timeout(ok, time)]
    ensures Turned(before, taken, now, state, state, false, ok)
  {}

  lemma DroppedOrNot(buffer: seq<byte>, unread: seq<byte>, taken: seq<Step>, partial: seq<byte>, stream: seq<byte>,
                     ok: bool, time: real)
    requires if taken == [] then partial == [] && stream == buffer + unread
             else taken == [Timeout(ok, time)] && partial == buffer && stream == unread
    ensures partial + stream == buffer + unread && (AllReceived(taken) <==> taken == [])
  {
    if taken != [] { assert !taken[0].Receive?; }
  }

  lemma TurnedHandled(before: Parsed, s: Step, now: Parsed, state: HostState, state': HostState, ok: bool)
    requires s.Receive? && before == Prepend(s.command, now) && ok == !Fails(state', s)
    ensures Turned(before, [s], now, state, state', ok, ok)
  {}

  lemma ReceivedSnoc(steps: seq<Step>, s: Step)
    ensures AllReceived(steps + [s]) <==> AllReceived(steps) && s.Receive?
  {
    assert (steps + [s])[|steps|] == s;
    assert forall i: nat | i < |steps| :: (steps + [s])[i] == steps[i];
  }

  lemma LastFailsSnoc(state: HostState, steps: seq<Step>, s: Step)
    ensures LastFails(state, steps + [s]) <==> Fails(state, s)
  {
    assert (steps + [s])[|steps + [s]| - 1] == s;
  }

  lemma ConsumedStep(all: Parsed, steps: seq<Step>, s: Step, before: Parsed, now: Parsed)
    requires Consumed(all, CommandsIn(steps), before) && !s.Connect?
    requires if s.Receive? then before == Prepend(s.command, now) else now == before
    ensures Consumed(all, CommandsIn(steps + [s]), now)
  {
    CommandsSnoc(steps, s);
    if s.Receive? {
      ConsumedOne(all, CommandsIn(steps), s.command, before, now);
    } else {
      assert CommandsIn(steps) + [] == CommandsIn(steps);
    }
  }

  lemma ConsumedTurn(all: Parsed, steps: seq<Step>, taken: seq<Step>, before: Parsed, now: Parsed,
                     state: HostState, state': HostState, more: bool, ok: bool)
    requires Consumed(all, CommandsIn(steps), before) && AllReceived(steps) && !LastFails(state, steps)
    requires Turned(before, taken, now, state, state', more, ok)
    ensures Consumed(all, CommandsIn(steps + taken), now) && ok == !LastFails(state', steps + taken)
    ensures AllReceived(steps + taken) == AllReceived(taken) && (more ==> ok && AllReceived(taken))
  {
    if taken == [] {
      assert steps + taken == steps;
    } else {
      var s := taken[0];
      assert taken == [s];
      ConsumedStep(all, steps, s, before, now);
      LastFailsSnoc(state', steps, s);
      ReceivedSnoc(steps, s);
    }
  }

  lemma ConcatSteps(a: seq<Step>, b: seq<Step>, c: seq<Step>)
    ensures a + b + c == a + (b + c)
  {}

  lemma PrefixTransitive(a: seq<Event>, b: seq<Event>, c: seq<Event>)
    requires a <= b <= c
    ensures a <= c
  {}

  /** Every command that will reach the decoder, if no send fails, is long enough for it. */
  ghost predicate AllWellFormed(state: HostState, cs: seq<Command>)
    decreases |cs|
  {
    cs != [] ==> WellFormed(state, cs[0]) && AllWellFormed(React(state, cs[0], true).state, cs[1..])
  }

  lemma HeadWellFormed(state: HostState, before: Parsed, c: Command, now: Parsed)
    requires AllWellFormed(state, before.commands) && before == Prepend(c, now)
    ensures WellFormed(state, c) && AllWellFormed(React(state, c, true).state, now.commands)
  {
    assert before.commands[0] == c && before.commands[1..] == now.commands;
  }

  /** Whether a step ends the connection: the send it needed did not succeed. */
  predicate Fails(state: HostState, s: Step) {
    match s
    case Connect(_) => false
    case Receive(c, sent, _) => !sent && RequiredAck(state, c) != []
    case Timeout(sent, _) => !sent
  }

  /** In every run the steps that end the connection are exactly the reset requests, the resets and the frame ends
      inside a frame whose command to the device was not sent. */
  lemma FailsExact(max: real, run: seq<Step>, hosts: seq<Host>, i: nat)
    requires IsRun(max, run, hosts) && i < |run|
    ensures Fails(hosts[i + 1].state, run[i]) <==>
      match run[i]
      case Connect(_) => false
      case Timeout(sent, _) => !sent
      case Receive(c, sent, _) =>
        !sent && (c.kind == RESET || (c.kind == END_FRAME && InFrame(hosts[i].log, |hosts[i].log|)))
  {
    RunPrefix(max, run, hosts, i);
    RunFollowsProtocol(max, run[..i], hosts[..i + 1]);
    assert LogInvariant(hosts[i].state, hosts[i].log);
    assert Takes(max, hosts[i], run[i], hosts[i + 1]);
  }

  /** A step that does not end the connection leads to the state that a successful send would have led to. */
  lemma SucceedsAsSent(state: HostState, s: Step)
    requires s.Receive? && WellFormed(state, s.command) && !Fails(React(state, s.command, s.sent).state, s)
    ensures React(state, s.command, s.sent).state == React(state, s.command, true).state
  {}

  /** The bytes of a command without payload, as all commands of the host are. */
  function Wire(kind: byte): seq<byte> {
    Encode(Command(kind, []))
  }

  /** The commands sent in between are what was written in between. */
  ghost predicate Transmitted(sent: seq<byte>, sent': seq<byte>, written: seq<byte>, written': seq<byte>) {
    sent <= sent' && written' == written + Flatten(Wire, sent'[|sent|..])
  }

  lemma TransmittedNothing(sent: seq<byte>, written: seq<byte>)
    ensures Transmitted(sent, sent, written, written)
  {}

  lemma TransmittedOne(sent: seq<byte>, kind: byte, written: seq<byte>, written': seq<byte>)
    requires Wrote(written, written', Command(kind, []), true)
    ensures Transmitted(sent, sent + [kind], written, written')
  {
    assert (sent + [kind])[|sent|..] == [kind];
    assert Flatten(Wire, [kind]) == Wire(kind) + [];
  }

  lemma TransmittedTransitive(s0: seq<byte>, s1: seq<byte>, s2: seq<byte>, w0: seq<byte>, w1: seq<byte>, w2: seq<byte>)
    requires Transmitted(s0, s1, w0, w1) && Transmitted(s1, s2, w1, w2)
    ensures Transmitted(s0, s2, w0, w2)
  {
    var a, b := s1[|s0|..], s2[|s1|..];
    FlattenConcat(Wire, a, b);
    SuffixSplit(s0, s1, s2);
    ConcatBytes(w0, Flatten(Wire, a), Flatten(Wire, b));
  }

  function Bare(kinds: seq<byte>): seq<Command> {
    if kinds == [] then [] else [Command(kinds[0], [])] + Bare(kinds[1..])
  }

  /** The device parses what the host has sent back into exactly the commands sent, whatever comes after them. */
  lemma {:induction false} DeviceReceives(kinds: seq<byte>, t: seq<byte>)
    ensures Parse(Flatten(Wire, kinds) + t) == Then(Parsed(Bare(kinds), []), Parse(t))
    decreases |kinds|
  {
    if kinds == [] {
      assert Flatten(Wire, kinds) + t == t;
    } else {
      DeviceReceives(kinds[1..], t);
      ParseEncoded(Command(kinds[0], []), Flatten(Wire, kinds[1..]) + t);
      ConcatBytes(Wire(kinds[0]), Flatten(Wire, kinds[1..]), t);
      ThenAssociative(Parsed([Command(kinds[0], [])], []), Parsed(Bare(kinds[1..]), []), Parse(t));
    }
  }

  lemma DeviceReceivesAll(kinds: seq<byte>)
    ensures Parse(Flatten(Wire, kinds)) == Parsed(Bare(kinds), [])
  {
    DeviceReceives(kinds, []);
    assert Flatten(Wire, kinds) + [] == Flatten(Wire, kinds);
    ParseWaiting([]);
  }

  lemma ConcatBytes(a: seq<byte>, b: seq<byte>, c: seq<byte>)
    ensures a + b + c == a + (b + c)
  {}

  class WaldoHostStateMachine {
    const stream: WaldoCommandByteStream
    const clock: Clock
    const maxTimeBetweenCommands: real
    var state: HostState
    var lastCommandTime: real
    var log: seq<Event>
    ghost var history: seq<Step>
    ghost var hosts: seq<Host>
    ghost var logBefore: seq<Event>    // the broadcasts, the commands sent and the bytes on the port
    ghost var sentBefore: seq<byte>    // when the present connection began
    ghost var writtenBefore: seq<byte>

    /** The recorded run has led to the present state. */
    ghost predicate Recorded()
      reads this
    {
      && IsRun(maxTimeBetweenCommands, history, hosts)
      && var h := hosts[|history|];
         h.state == state && h.last == lastCommandTime && h.log == log
    }

    ghost predicate Valid()
      reads this, stream, clock
    {
      && stream.Valid()
      && (state != NoState <==> stream.port != null)
      && Recorded() && hosts[|history|].now <= clock.now
    }

    constructor (clock: Clock, maxTimeBetweenCommands: real)
      requires clock.now >= 0.0
      ensures Valid() && fresh(stream) && this.clock == clock && stream.port == null && state == NoState && log == []
      ensures this.maxTimeBetweenCommands == maxTimeBetweenCommands && history == []
    {
      var s := new WaldoCommandByteStream();
      stream := s;
      this.clock := clock;
      this.maxTimeBetweenCommands := maxTimeBetweenCommands;
      state, lastCommandTime, log, history, hosts := NoState, 0.0, [], [], [INITIAL];
      logBefore, sentBefore, writtenBefore := [], [], [];
    }

    /** The kinds of the commands sent so far. */
    ghost function Sent(): seq<byte>
      requires |hosts| == |history| + 1
      reads this
    {
      hosts[|history|].sent
    }

    /** Everything written since the present connection began is the encoding of everything sent since. */
    ghost predicate Intact()
      requires |hosts| == |history| + 1
      reads this, stream, stream.port
    {
      && stream.port != null && logBefore <= log && AcksIn(sentBefore) == AcksFor(logBefore)
      && Transmitted(sentBefore, Sent(), writtenBefore, stream.port.written)
    }

    /** A connection stays intact when what is sent is what is written, as in a successful tick. */
    lemma IntactSince(before: seq<Event>, sent: seq<byte>, written: seq<byte>)
      requires Valid() && stream.port != null && logBefore <= before <= log && AcksIn(sentBefore) == AcksFor(logBefore)
      requires Transmitted(sentBefore, sent, writtenBefore, written)
      requires Transmitted(sent, Sent(), written, stream.port.written)
      ensures Intact()
    {
      PrefixTransitive(logBefore, before, log);
      TransmittedTransitive(sentBefore, sent, Sent(), writtenBefore, written, stream.port.written);
    }

    /** What the device parses of an intact connection is exactly the commands sent since it began, and the
        acknowledgements among them match the resets and frame ends broadcast since, one for one and in order. */
    lemma DeviceSees()
      requires Valid() && Intact()
      ensures var sent := Sent()[|sentBefore|..];
              && Parse(stream.port.written[|writtenBefore|..]) == Parsed(Bare(sent), [])
              && AcksIn(sent) == AcksFor(log[|logBefore|..])
    {
      var sent := Sent()[|sentBefore|..];
      assert stream.port.written[|writtenBefore|..] == Flatten(Wire, sent);
      DeviceReceivesAll(sent);
      AcksMatchBroadcasts(maxTimeBetweenCommands, history, hosts);
      AcksSuffix(sentBefore, Sent(), logBefore, log);
    }

    /** A (re)connection. Bytes left in the framer's buffer by the previous connection stay there. */
    method Reset(port: SerialPort)
      requires Valid()
      modifies this, stream`port, clock
      ensures Valid() && stream.port == port && stream.buffer == old(stream.buffer)
      ensures history == old(history) + [Connect(lastCommandTime)]
      ensures log == old(log) + [Connected] && Intact()
    {
      state := AwaitingReset;
      stream.Setup(port);
      lastCommandTime := clock.GetTime();
      log := log + [Connected];
      Record(Connect(lastCommandTime));
      BeginConnection(port);
    }

    ghost method BeginConnection(port: SerialPort)
      requires Valid() && stream.port == port
      modifies this`logBefore, this`sentBefore, this`writtenBefore
      ensures Intact()
    {
      AcksMatchBroadcasts(maxTimeBetweenCommands, history, hosts);
      logBefore, sentBefore, writtenBefore := log, Sent(), port.written;
      TransmittedNothing(sentBefore, writtenBefore);
    }

    /** One step of `Tick`'s history. */
    ghost method Record(s: Step)
      requires IsRun(maxTimeBetweenCommands, history, hosts)
      requires Enabled(maxTimeBetweenCommands, hosts[|history|], s)
      modifies this`history, this`hosts
      ensures history == old(history) + [s] && IsRun(maxTimeBetweenCommands, history, hosts)
      ensures hosts[|history|] == Apply(old(hosts[|history|]), s)
    {
      var h := Apply(hosts[|history|], s);
      Extend(maxTimeBetweenCommands, history, hosts, s, h);
      history, hosts := history + [s], hosts + [h];
    }

    /** Handles what has arrived. The steps it takes are a legal continuation of the run; the commands in them head
        what the whole-stream parser finds in the stream, and the rest of that is what is left, except that a timeout
        loses `partial`, the incomplete command that was waiting. It reports failure exactly when a send it needed
        failed. */
    method Tick() returns (ok: bool, ghost steps: seq<Step>, ghost partial: seq<byte>)
      requires Valid() && stream.port != null
      requires AllWellFormed(state, Parse(stream.Stream()).commands)
      modifies this`state, this`lastCommandTime, this`log, this`history, this`hosts
      modifies stream`buffer, stream.port, clock
      ensures Valid()
      ensures old(Intact()) && ok ==> Intact()
      ensures history == old(history) + steps && old(log) <= log
      ensures Consumed(Parse(old(stream.Stream())), CommandsIn(steps), Parse(partial + stream.Stream()))
      ensures if AllReceived(steps) then partial == [] else Waiting(partial) && stream.buffer == []
      ensures ok == !LastFails(state, steps)
      ensures ok ==> stream.port.incoming == []
      ensures ok && AllReceived(steps) ==> AllWellFormed(state, Parse(stream.Stream()).commands)
      ensures ok ==> Transmitted(old(Sent()), Sent(), old(stream.port.written), stream.port.written)
    {
      ghost var logBefore, sent, written := log, Sent(), stream.port.written;
      ok, steps, partial := TickLoop();
      if ok && old(Intact()) { IntactSince(logBefore, sent, written); }
    }

    method TickLoop() returns (ok: bool, ghost steps: seq<Step>, ghost partial: seq<byte>)
      requires Valid() && stream.port != null
      requires AllWellFormed(state, Parse(stream.Stream()).commands)
      modifies this`state, this`lastCommandTime, this`log, this`history, this`hosts
      modifies stream`buffer, stream.port, clock
      ensures Valid()
      ensures history == old(history) + steps && old(log) <= log
      ensures Consumed(Parse(old(stream.Stream())), CommandsIn(steps), Parse(partial + stream.Stream()))
      ensures if AllReceived(steps) then partial == [] else Waiting(partial) && stream.buffer == []
      ensures ok == !LastFails(state, steps)
      ensures ok ==> stream.port.incoming == []
      ensures ok && AllReceived(steps) ==> AllWellFormed(state, Parse(stream.Stream()).commands)
      ensures ok ==> Transmitted(old(Sent()), Sent(), old(stream.port.written), stream.port.written)
    {
      steps, ok, partial := [], true, [];
      ghost var all, base := Parse(stream.Stream()), history;
      ConsumedStart(all);
      EmptyConcat(stream.Stream());
      TransmittedNothing(Sent(), stream.port.written);
      var more := true;
      while true
        invariant Valid() && stream.port != null
        invariant history == base + steps && old(log) <= log
        invariant ok && AllReceived(steps) && Consumed(all, CommandsIn(steps), Parse(stream.Stream()))
        invariant !LastFails(state, steps) && AllWellFormed(state, Parse(stream.Stream()).commands)
        invariant Transmitted(old(Sent()), Sent(), old(stream.port.written), stream.port.written)
        decreases |stream.port.Unread()|
      {
        ghost var logBefore, sent, written := log, Sent(), stream.port.written;
        more, ok, steps, partial := TickStep(all, base, steps);
        EmptyConcat(stream.Stream());
        PrefixTransitive(old(log), logBefore, log);
        if ok {
          TransmittedTransitive(old(Sent()), sent, Sent(), old(stream.port.written), written, stream.port.written);
        }
        if !more {
          return;
        }
      }
    }

    /** One pass of the loop in `Tick`, with the account of the passes before it. */
    method TickStep(ghost all: Parsed, ghost base: seq<Step>, ghost steps: seq<Step>)
      returns (more: bool, ok: bool, ghost steps': seq<Step>, ghost partial: seq<byte>)
      requires Valid() && stream.port != null
      requires history == base + steps
      requires AllReceived(steps) && Consumed(all, CommandsIn(steps), Parse(stream.Stream()))
      requires !LastFails(state, steps) && AllWellFormed(state, Parse(stream.Stream()).commands)
      modifies this`state, this`lastCommandTime, this`log, this`history, this`hosts
      modifies stream`buffer, stream.port, clock
      ensures Valid()
      ensures history == base + steps' && old(log) <= log
      ensures Consumed(all, CommandsIn(steps'), Parse(partial + stream.Stream()))
      ensures if AllReceived(steps') then partial == [] else Waiting(partial) && stream.buffer == []
      ensures ok == !LastFails(state, steps')
      ensures ok && AllReceived(steps') ==> AllWellFormed(state, Parse(stream.Stream()).commands)
      ensures ok && !more ==> stream.port.incoming == []
      ensures ok ==> Transmitted(old(Sent()), Sent(), old(stream.port.written), stream.port.written)
      ensures more ==> ok && AllReceived(steps') && |stream.port.Unread()| < |old(stream.port.Unread())|
    {
      ghost var pending, stateBefore := Parse(stream.Stream()), state;
      ghost var taken, rest;
      more, ok, taken, rest, partial := TickOnce(pending);
      EmptyConcat(stream.Stream());
      ConcatSteps(base, steps, taken);
      ConsumedTurn(all, steps, taken, pending, rest, stateBefore, state, more, ok);
      steps' := steps + taken;
    }

    method TickOnce(ghost pending: Parsed)
      returns (more: bool, ok: bool, ghost taken: seq<Step>, ghost rest: Parsed, ghost partial: seq<byte>)
      requires Valid() && stream.port != null
      requires pending == Parse(stream.Stream()) && AllWellFormed(state, pending.commands)
      modifies this`state, this`lastCommandTime, this`log, this`history, this`hosts
      modifies stream`buffer, stream.port, clock
      ensures Valid() && history == old(history) + taken && old(log) <= log
      ensures rest == Parse(partial + stream.Stream()) && Turned(pending, taken, rest, old(state), state, more, ok)
      ensures if AllReceived(taken) then partial == [] else Waiting(partial) && stream.buffer == []
      ensures ok && AllReceived(taken) ==> AllWellFormed(state, rest.commands)
      ensures ok && !more ==> stream.port.incoming == []
      ensures ok ==> Transmitted(old(Sent()), Sent(), old(stream.port.written), stream.port.written)
      ensures more ==> |stream.port.Unread()| < |old(stream.port.Unread())|
    {
      var time, command := Poll();
      if command == None {
        more := false;
        ok, taken, rest, partial := TickSilent(time, pending);
        return;
      }
      partial := [];
      ghost var stateBefore := state;
      EmptyConcat(stream.Stream());
      rest := Parse(stream.Stream());
      HeadWellFormed(state, pending, command.value, rest);
      ghost var s: Step;
      ok, s := Handle(command.value, time);
      if ok { SucceedsAsSent(stateBefore, s); }
      more, taken := ok, [s];
      TurnedHandled(pending, s, rest, stateBefore, state, ok);
    }

    /** What the loop in `Tick` does when no command has arrived. */
    method TickSilent(time: real, ghost pending: Parsed)
      returns (ok: bool, ghost taken: seq<Step>, ghost rest: Parsed, ghost partial: seq<byte>)
      requires Valid() && stream.port != null && hosts[|history|].now <= time == clock.now
      requires pending == Parse(stream.Stream())
      modifies this`lastCommandTime, this`history, this`hosts, stream`buffer, stream.port
      ensures Valid() && history == old(history) + taken && stream.port.incoming == old(stream.port.incoming)
      ensures rest == Parse(partial + stream.Stream()) == pending
      ensures Turned(pending, taken, rest, state, state, false, ok)
      ensures if AllReceived(taken) then partial == [] else Waiting(partial) && stream.buffer == []
      ensures ok ==> Transmitted(old(Sent()), Sent(), old(stream.port.written), stream.port.written)
    {
      partial := [];
      ghost var buffer, unread := stream.buffer, stream.port.Unread();
      ok, taken := CheckSilence(time);
      if taken != [] { partial := buffer; }
      DroppedOrNot(buffer, unread, taken, partial, stream.Stream(), ok, time);
      rest := Parse(partial + stream.Stream());
      TurnedSilent(pending, taken, rest, state, ok, time);
    }

    /** Reads the clock and then the stream. */
    method Poll() returns (time: real, command: Option<Command>)
      requires Valid() && stream.port != null
      modifies stream`buffer, stream.port, clock
      ensures Valid() && hosts[|history|].now <= time == clock.now && stream.port.written == old(stream.port.written)
      ensures command == None ==> Parse(stream.Stream()) == Parse(old(stream.Stream())) && stream.port.incoming == []
      ensures command != None ==>
        && stream.buffer == []
        && Parse(old(stream.Stream())) == Prepend(command.value, Parse(stream.Stream()))
        && |stream.port.Unread()| < |old(stream.port.Unread())|
    {
      time := ReadClock();
      command := stream.Receive();
    }

    method ReadClock() returns (time: real)
      requires Valid() && stream.port != null
      modifies clock
      ensures Valid() && hosts[|history|].now <= time == clock.now
      ensures stream.Stream() == old(stream.Stream()) && stream.port.Unread() == old(stream.port.Unread())
      ensures stream.port.written == old(stream.port.written)
    {
      time := clock.GetTime();
    }

    /** The part of the loop in `Tick` that follows a received command. */
    method Handle(command: Command, time: real) returns (ok: bool, ghost s: Step)
      requires Valid() && stream.port != null && stream.buffer == [] && WellFormed(state, command)
      requires hosts[|history|].now <= time == clock.now
      modifies this`state, this`lastCommandTime, this`log, this`history, this`hosts
      modifies stream`buffer, stream.port
      ensures Valid() && history == old(history) + [s] && old(log) <= log
      ensures s.Receive? && s.command == command && s.now == time
      ensures stream.Stream() == old(stream.Stream()) && stream.port.Unread() == old(stream.port.Unread())
      ensures ok <==> !Fails(state, s)
      ensures state == React(old(state), command, s.sent).state
      ensures ok ==> Transmitted(old(Sent()), Sent(), old(stream.port.written), stream.port.written)
    {
      lastCommandTime := time;
      ghost var before, written, ack := Sent(), stream.port.written, RequiredAck(state, command);
      var handled, errored, sent := Process(command);
      s := Receive(command, sent, time);
      Record(s);
      if sent {
        TransmittedOne(before, ack[0], written, stream.port.written);
      } else {
        TransmittedNothing(before, stream.port.written);
      }
      ok := handled || !errored;
    }

    /** After a silence longer than the maximum, drops the partial command and asks the device to reset. */
    method CheckSilence(time: real) returns (ok: bool, ghost taken: seq<Step>)
      requires Valid() && stream.port != null
      requires hosts[|history|].now <= time == clock.now
      modifies this`lastCommandTime, this`history, this`hosts, stream`buffer, stream.port
      ensures Valid() && history == old(history) + taken
      ensures stream.port.incoming == old(stream.port.incoming)
      ensures if time - old(lastCommandTime) <= maxTimeBetweenCommands then
                && ok && taken == [] && stream.Stream() == old(stream.Stream())
                && stream.port.written == old(stream.port.written)
              else
                && taken == [Timeout(ok, time)] && stream.buffer == [] && stream.Stream() == old(stream.port.Unread())
                && Wrote(old(stream.port.written), stream.port.written, Command(RESET, []), ok)
      ensures ok ==> Transmitted(old(Sent()), Sent(), old(stream.port.written), stream.port.written)
    {
      var elapsed := time - lastCommandTime;
      taken := [];
      ok := true;
      ghost var before := Sent();
      TransmittedNothing(before, stream.port.written);
      if elapsed > maxTimeBetweenCommands {
        stream.Reset();
        var encoder := new WaldoCommandEncoder();
        encoder.EncodeReset();
        ok := stream.Send(encoder.command);
        taken := [Timeout(ok, time)];
        Record(Timeout(ok, time));
        if ok { TransmittedOne(before, RESET, old(stream.port.written), stream.port.written); }
        if !ok {
          return;
        }
        lastCommandTime := time;
      }
    }

    /** Reacts to one command: acknowledges it first where it must be, and takes effect only if that succeeded. */
    method Process(command: Command) returns (handled: bool, errored: bool, ghost sent: bool)
      requires stream.port != null && stream.buffer == [] && WellFormed(state, command)
      modifies this`state, this`log, stream`buffer, stream.port
      ensures stream.buffer == [] && stream.port.Unread() == old(stream.port.Unread())
      ensures var r := React(old(state), command, sent);
              && state == r.state && log == old(log) + r.events
              && handled == r.outcome.Handled? && errored == r.outcome.Errored?
      ensures var ack := RequiredAck(old(state), command);
              if ack == [] then !sent && stream.port.written == old(stream.port.written)
              else Wrote(old(stream.port.written), stream.port.written, Command(ack[0], []), sent)
    {
      handled, errored, sent := true, false, false;
      var encoder := new WaldoCommandEncoder();
      var decoder := new WaldoCommandDecoder(command);
      if command.kind == RESET {
        encoder.EncodeAcknowledgeReset();
        var ok := stream.Send(encoder.command);
        sent := ok;
        if !ok {
          return false, true, sent;
        }
        stream.Reset();
        state := Ready;
        log := log + [ResetDone];
        return;
      } else if command.kind == MESSAGE {
        var message := decoder.DecodeMessage();
        log := log + [Message(message.value)];
        return;
      }
      match state {
        case AwaitingReset =>
        case Ready =>
          if command.kind == REGISTER_INPUT {
            var input := decoder.DecodeRegisterInput();
            log := log + [RegisterInput(input.value)];
            return;
          } else if command.kind == START_FRAME {
            state := Frame;
            log := log + [FrameStart];
            return;
          }
        case Frame =>
          if command.kind == INPUT_VALUE {
            var value := decoder.DecodeInputValue();
            log := log + [Value(value.value)];
            return;
          } else if command.kind == END_FRAME {
            encoder.EncodeAcknowledgeFrame();
            var ok := stream.Send(encoder.command);
            sent := ok;
            if !ok {
              return false, true, sent;
            }
            state := Ready;
            log := log + [FrameEnd];
            return;
          }
        case NoState =>
          errored := true;
      }
      handled := false;
    }
  }
}
