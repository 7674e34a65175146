/** The host's side of the Waldo protocol, as values: what one command does in each state, and what holds of
    every run of connections, commands, failing sends and timeouts. */
module HostProtocol {
  import opened Basics
  import opened Framing

  const RESET: byte := 0x52           // 'R'
  const REGISTER_INPUT: byte := 0x49  // 'I'
  const START_FRAME: byte := 0x46     // 'F'
  const INPUT_VALUE: byte := 0x56     // 'V'
  const END_FRAME: byte := 0x45       // 'E'
  const MESSAGE: byte := 0x4D         // 'M'
  const ACK_RESET: byte := 0x41       // 'A'
  const ACK_FRAME: byte := 0x4B       // 'K'

  datatype HostState = NoState | AwaitingReset | Ready | Frame

  datatype Input = Input(name: string, pin: int, id: int, kind: byte)
  datatype InputValue = InputValue(id: int, value: int)

  datatype Event =
    | Connected
    | ResetDone
    | Message(text: string)
    | RegisterInput(input: Input)
    | FrameStart
    | Value(value: InputValue)
    | FrameEnd

  datatype Outcome = Handled | Ignored | Errored

  /** What processing a command leads to: the new state and the broadcast, if any. */
  datatype Reaction = Reaction(state: HostState, events: seq<Event>, outcome: Outcome)

  function Text(data: seq<byte>): (s: string)
    ensures |s| == |data|
  {
    seq(|data|, i requires 0 <= i < |data| => data[i] as char)
  }

  /** A payload long enough for the decoder's unchecked indexing, if the state lets the command reach the decoder. */
  predicate WellFormed(state: HostState, c: Command) {
    && (state == Ready && c.kind == REGISTER_INPUT ==> |c.data| >= 3)
    && (state == Frame && c.kind == INPUT_VALUE ==> |c.data| >= 2)
  }

  function DecodedInput(data: seq<byte>): Input
    requires |data| >= 3
  {
    Input(Text(data[3..]), data[1], data[0], data[2])
  }

  function DecodedValue(data: seq<byte>): InputValue
    requires |data| >= 2
  {
    InputValue(data[0], data[1])
  }

  /** The acknowledgement that must be sent before a command takes effect. */
  function RequiredAck(state: HostState, c: Command): (kind: seq<byte>) {
    if c.kind == RESET then [ACK_RESET]
    else if c.kind == END_FRAME && state == Frame then [ACK_FRAME]
    else []
  }

  function React(state: HostState, c: Command, sent: bool): Reaction
    requires WellFormed(state, c)
  {
    if c.kind == RESET then
      if sent then Reaction(Ready, [ResetDone], Handled) else Reaction(state, [], Errored)
    else if c.kind == MESSAGE then Reaction(state, [Message(Text(c.data))], Handled)
    else match state
      case NoState => Reaction(state, [], Errored)
      case AwaitingReset => Reaction(state, [], Ignored)
      case Ready =>
        if c.kind == REGISTER_INPUT then Reaction(Ready, [RegisterInput(DecodedInput(c.data))], Handled)
        else if c.kind == START_FRAME then Reaction(Frame, [FrameStart], Handled)
        else Reaction(Ready, [], Ignored)
      case Frame =>
        if c.kind == INPUT_VALUE then Reaction(Frame, [Value(DecodedValue(c.data))], Handled)
        else if c.kind == END_FRAME then
          if sent then Reaction(Ready, [FrameEnd], Handled) else Reaction(state, [], Errored)
        else Reaction(Frame, [], Ignored)
  }

  // ----- runs

  /** One thing that happens to the host: a (re)connection, a command with the fate of its acknowledgement, or the
      line having been silent for too long, with the fate of the reset request. */
  datatype Step =
    | Connect(now: real)
    | Receive(command: Command, sent: bool, now: real)
    | Timeout(sent: bool, now: real)

  /** The host after a run: its state, when it last heard from the device, its broadcasts, and the kinds of the
      commands it has sent successfully. */
  datatype Host = Host(state: HostState, last: real, now: real, log: seq<Event>, sent: seq<byte>)

  const INITIAL: Host := Host(NoState, 0.0, 0.0, [], [])

  ghost predicate Enabled(max: real, h: Host, s: Step) {
    && h.now <= s.now
    && (s.Receive? ==> WellFormed(h.state, s.command))
    && (s.Timeout? ==> s.now - h.last > max)
    && (!s.Connect? ==> h.state != NoState)
  }

  ghost function Apply(h: Host, s: Step): Host
    requires s.Receive? ==> WellFormed(h.state, s.command)
  {
    match s
    case Connect(now) => Host(AwaitingReset, now, now, h.log + [Connected], h.sent)
    case Receive(c, sent, now) =>
      var r := React(h.state, c, sent);
      Host(r.state, now, now, h.log + r.events, h.sent + (if sent then RequiredAck(h.state, c) else []))
    case Timeout(sent, now) =>
      if sent then h.(last := now, now := now, sent := h.sent + [RESET]) else h.(now := now)
  }

  ghost predicate Takes(max: real, h: Host, s: Step, h': Host) {
    Enabled(max, h, s) && h' == Apply(h, s)
  }

  /** The hosts before, between and after the steps of a run from the initial host. */
  ghost predicate IsRun(max: real, run: seq<Step>, hosts: seq<Host>) {
    && |hosts| == |run| + 1 && hosts[0] == INITIAL
    && forall i: nat {:trigger run[i]} | i < |run| :: Takes(max, hosts[i], run[i], hosts[i + 1])
  }

  lemma Extend(max: real, run: seq<Step>, hosts: seq<Host>, s: Step, h: Host)
    requires IsRun(max, run, hosts) && Takes(max, hosts[|run|], s, h)
    ensures IsRun(max, run + [s], hosts + [h])
  {}

  /** A run without its last step. */
  lemma Shorten(max: real, run: seq<Step>, hosts: seq<Host>)
    requires IsRun(max, run, hosts) && run != []
    ensures IsRun(max, run[..|run| - 1], hosts[..|run|])
    ensures Takes(max, hosts[|run| - 1], run[|run| - 1], hosts[|run|])
  {
    var prefix := run[..|run| - 1];
    forall i: nat | i < |prefix| ensures Takes(max, hosts[..|run|][i], prefix[i], hosts[..|run|][i + 1]) {
      assert run[i] == prefix[i];
    }
    assert Takes(max, hosts[|run| - 1], run[|run| - 1], hosts[|run| - 1 + 1]);
  }

  // ----- the broadcasts follow the protocol

  /** The last event before n that is neither a value nor a message is the start of a frame. */
  ghost predicate InFrame(log: seq<Event>, n: nat)
    requires n <= |log|
  {
    exists j: nat :: j < n && log[j] == FrameStart && forall k: nat | j < k < n :: log[k].Value? || log[k].Message?
  }

  /** The last event before n that is neither a registration nor a message is a reset or the end of a frame. */
  ghost predicate BetweenFrames(log: seq<Event>, n: nat)
    requires n <= |log|
  {
    exists j: nat :: j < n && (log[j] == ResetDone || log[j] == FrameEnd) &&
                     forall k: nat | j < k < n :: log[k].RegisterInput? || log[k].Message?
  }

  /** Values and frame ends occur only in a frame that was started and neither ended, reset nor disconnected since;
      registrations and frame starts occur only after a reset on this connection, outside frames. */
  ghost predicate FollowsProtocol(log: seq<Event>) {
    forall i: nat | i < |log| ::
      && (log[i].Value? || log[i].FrameEnd? ==> InFrame(log, i))
      && (log[i].RegisterInput? || log[i].FrameStart? ==> BetweenFrames(log, i))
  }

  /** The log follows the protocol, and the host is in a frame or between frames exactly when the log says so. */
  ghost predicate LogInvariant(state: HostState, log: seq<Event>) {
    && FollowsProtocol(log)
    && (state == Frame <==> InFrame(log, |log|))
    && (state == Ready <==> BetweenFrames(log, |log|))
  }

  lemma LogPrefix(log: seq<Event>, e: Event, n: nat)
    requires n <= |log|
    ensures InFrame(log + [e], n) == InFrame(log, n) && BetweenFrames(log + [e], n) == BetweenFrames(log, n)
  {
    assert forall k: nat | k < n :: (log + [e])[k] == log[k];
  }

  lemma FrameContinues(log: seq<Event>, e: Event)
    ensures InFrame(log + [e], |log| + 1) <==>
      e == FrameStart || (InFrame(log, |log|) && (e.Value? || e.Message?))
  {
    var log' := log + [e];
    assert log'[|log|] == e && forall k: nat | k < |log| :: log'[k] == log[k];
    if InFrame(log, |log|) && (e.Value? || e.Message?) {
      var j: nat :| j < |log| && log[j] == FrameStart &&
                    forall k: nat | j < k < |log| :: log[k].Value? || log[k].Message?;
      assert log'[j] == FrameStart && forall k: nat | j < k < |log'| :: log'[k].Value? || log'[k].Message?;
    }
    if InFrame(log', |log'|) && e != FrameStart {
      var j: nat :| j < |log'| && log'[j] == FrameStart &&
                    forall k: nat | j < k < |log'| :: log'[k].Value? || log'[k].Message?;
      assert log[j] == FrameStart && forall k: nat | j < k < |log| :: log[k] == log'[k];
    }
  }

  lemma BetweenContinues(log: seq<Event>, e: Event)
    ensures BetweenFrames(log + [e], |log| + 1) <==>
      e == ResetDone || e == FrameEnd || (BetweenFrames(log, |log|) && (e.RegisterInput? || e.Message?))
  {
    var log' := log + [e];
    assert log'[|log|] == e && forall k: nat | k < |log| :: log'[k] == log[k];
    if BetweenFrames(log, |log|) && (e.RegisterInput? || e.Message?) {
      var j: nat :| j < |log| && (log[j] == ResetDone || log[j] == FrameEnd) &&
                    forall k: nat | j < k < |log| :: log[k].RegisterInput? || log[k].Message?;
      assert log'[j] == log[j] && forall k: nat | j < k < |log'| :: log'[k].RegisterInput? || log'[k].Message?;
    }
    if BetweenFrames(log', |log'|) && e != ResetDone && e != FrameEnd {
      var j: nat :| j < |log'| && (log'[j] == ResetDone || log'[j] == FrameEnd) &&
                    forall k: nat | j < k < |log'| :: log'[k].RegisterInput? || log'[k].Message?;
      assert log[j] == log'[j] && forall k: nat | j < k < |log| :: log[k] == log'[k];
    }
  }

  lemma LogAppend(log: seq<Event>, e: Event)
    requires FollowsProtocol(log)
    requires e.Value? || e.FrameEnd? ==> InFrame(log, |log|)
    requires e.RegisterInput? || e.FrameStart? ==> BetweenFrames(log, |log|)
    ensures FollowsProtocol(log + [e])
  {
    forall i: nat | i < |log + [e]|
      ensures (log + [e])[i].Value? || (log + [e])[i].FrameEnd? ==> InFrame(log + [e], i)
      ensures (log + [e])[i].RegisterInput? || (log + [e])[i].FrameStart? ==> BetweenFrames(log + [e], i) {
      LogPrefix(log, e, i);
    }
  }

  /** A reaction either changes nothing or broadcasts one event that the state allows and that leads to the new
      state. */
  lemma ReactLegal(state: HostState, c: Command, sent: bool)
    requires WellFormed(state, c)
    ensures var r := React(state, c, sent);
            if r.events == [] then r.state == state
            else
              && |r.events| == 1
              && var e := r.events[0];
                 && (e.Value? || e.FrameEnd? ==> state == Frame)
                 && (e.RegisterInput? || e.FrameStart? ==> state == Ready)
                 && (r.state == Frame <==> e == FrameStart || (state == Frame && (e.Value? || e.Message?)))
                 && (r.state == Ready <==>
                       e == ResetDone || e == FrameEnd || (state == Ready && (e.RegisterInput? || e.Message?)))
  {}

  lemma ReactKeepsLog(state: HostState, log: seq<Event>, c: Command, sent: bool)
    requires WellFormed(state, c) && LogInvariant(state, log)
    ensures var r := React(state, c, sent); LogInvariant(r.state, log + r.events)
  {
    var r := React(state, c, sent);
    ReactLegal(state, c, sent);
    if r.events == [] {
      assert log + r.events == log;
    } else {
      assert r.events == [r.events[0]];
      LogAppend(log, r.events[0]);
      FrameContinues(log, r.events[0]);
      BetweenContinues(log, r.events[0]);
    }
  }

  /** In every run the broadcasts follow the protocol. */
  lemma {:induction false} RunFollowsProtocol(max: real, run: seq<Step>, hosts: seq<Host>)
    requires IsRun(max, run, hosts)
    ensures LogInvariant(hosts[|run|].state, hosts[|run|].log)
    decreases |run|
  {
    if run != [] {
      Shorten(max, run, hosts);
      RunFollowsProtocol(max, run[..|run| - 1], hosts[..|run|]);
      var h := hosts[|run| - 1];
      match run[|run| - 1]
      case Connect(_) =>
        LogAppend(h.log, Connected);
        FrameContinues(h.log, Connected);
        BetweenContinues(h.log, Connected);
      case Receive(c, sent, _) => ReactKeepsLog(h.state, h.log, c, sent);
      case Timeout(_, _) =>
    }
  }

  lemma RunPrefix(max: real, run: seq<Step>, hosts: seq<Host>, n: nat)
    requires IsRun(max, run, hosts) && n <= |run|
    ensures IsRun(max, run[..n], hosts[..n + 1])
  {
    forall i: nat {:trigger run[..n][i]} | i < n
      ensures Takes(max, hosts[..n + 1][i], run[..n][i], hosts[..n + 1][i + 1]) {
      assert run[i] == run[..n][i];
    }
  }

  ghost predicate Adds(log: seq<Event>, log': seq<Event>) {
    |log'| == |log| + 1 && log'[..|log|] == log
  }

  ghost predicate Spells(text: string, data: seq<byte>) {
    |text| == |data| && forall k: nat | k < |data| :: text[k] as int == data[k]
  }

  /** What every command of every run does, told from the broadcasts before it: a value command inside a frame
      broadcasts its two bytes as id and value; a registration between frames broadcasts id, pin, kind and name; resets
      anywhere, and frame ends inside a frame, take effect when acknowledged; frame starts between frames and messages
      anywhere take effect at once. Nothing else is broadcast or acknowledged. */
  lemma CommandsTakeEffect(max: real, run: seq<Step>, hosts: seq<Host>, i: nat)
    requires IsRun(max, run, hosts) && i < |run| && run[i].Receive?
    ensures var c, ok, log, log' := run[i].command, run[i].sent, hosts[i].log, hosts[i + 1].log;
            var inFrame, between := InFrame(log, |log|), BetweenFrames(log, |log|);
            if c.kind == RESET then log' == log + (if ok then [ResetDone] else [])
            else if c.kind == MESSAGE then
              Adds(log, log') && log'[|log|].Message? && Spells(log'[|log|].text, c.data)
            else if between && c.kind == REGISTER_INPUT then
              && |c.data| >= 3 && Adds(log, log') && log'[|log|].RegisterInput?
              && var input := log'[|log|].input;
                 && input.id == c.data[0] && input.pin == c.data[1] && input.kind == c.data[2]
                 && Spells(input.name, c.data[3..])
            else if between && c.kind == START_FRAME then log' == log + [FrameStart]
            else if inFrame && c.kind == INPUT_VALUE then
              |c.data| >= 2 && log' == log + [Value(InputValue(c.data[0], c.data[1]))]
            else if inFrame && c.kind == END_FRAME then log' == log + (if ok then [FrameEnd] else [])
            else log' == log
    ensures var c, ok, log := run[i].command, run[i].sent, hosts[i].log;
            hosts[i + 1].sent == hosts[i].sent +
              if ok && c.kind == RESET then [ACK_RESET]
              else if ok && c.kind == END_FRAME && InFrame(log, |log|) then [ACK_FRAME]
              else []
  {
    RunPrefix(max, run, hosts, i);
    RunFollowsProtocol(max, run[..i], hosts[..i + 1]);
    assert LogInvariant(hosts[i].state, hosts[i].log);
    assert Takes(max, hosts[i], run[i], hosts[i + 1]);
  }

  /** Connections broadcast, and timeouts ask for a reset without broadcasting. */
  lemma SilencesAndConnections(max: real, run: seq<Step>, hosts: seq<Host>, i: nat)
    requires IsRun(max, run, hosts) && i < |run|
    ensures var h, h' := hosts[i], hosts[i + 1];
            && (run[i].Connect? ==> h'.log == h.log + [Connected] && h'.sent == h.sent)
            && (run[i].Timeout? ==>
                  && run[i].now - h.last > max && h'.log == h.log
                  && h'.sent == h.sent + if run[i].sent then [RESET] else [])
  {
    assert Takes(max, hosts[i], run[i], hosts[i + 1]);
  }

  /** A connection, a command, or a reset request that was sent: from then on the silence is measured. */
  predicate Marks(s: Step) {
    s.Connect? || s.Receive? || s.sent
  }

  /** In every run the silence is measured from the last such step, whatever came after it. */
  lemma {:induction false} SilenceMeasured(max: real, run: seq<Step>, hosts: seq<Host>, j: nat)
    requires IsRun(max, run, hosts) && j < |run| && Marks(run[j])
    requires forall k: nat | j < k < |run| :: !Marks(run[k])
    ensures hosts[|run|].last == run[j].now
    decreases |run|
  {
    Shorten(max, run, hosts);
    if j < |run| - 1 {
      assert !Marks(run[|run| - 1]);
      SilenceMeasured(max, run[..|run| - 1], hosts[..|run|], j);
    }
  }

  // ----- acknowledgements

  function AckFor(e: Event): seq<byte> {
    match e
    case ResetDone => [ACK_RESET]
    case FrameEnd => [ACK_FRAME]
    case _ => []
  }

  function AcksFor(log: seq<Event>): seq<byte> {
    if log == [] then [] else AcksFor(log[..|log| - 1]) + AckFor(log[|log| - 1])
  }

  function AckIn(kind: byte): seq<byte> {
    if kind in {ACK_RESET, ACK_FRAME} then [kind] else []
  }

  /** The acknowledgements among the commands sent. */
  function AcksIn(sent: seq<byte>): seq<byte> {
    if sent == [] then []
    else AcksIn(sent[..|sent| - 1]) + AckIn(sent[|sent| - 1])
  }

  lemma SentAppend(sent: seq<byte>, a: seq<byte>)
    requires |a| <= 1
    ensures AcksIn(sent + a) == AcksIn(sent) + AcksIn(a)
  {
    if a == [] { assert sent + a == sent; } else { assert (sent + a)[..|sent|] == sent; }
  }

  lemma AcksAppend(log: seq<Event>, es: seq<Event>)
    requires |es| <= 1
    ensures AcksFor(log + es) == AcksFor(log) + AcksFor(es)
  {
    if es == [] { assert log + es == log; } else { assert (log + es)[..|log|] == log; }
  }

  lemma AckSingle(e: Event, kind: byte)
    requires (e == ResetDone && kind == ACK_RESET) || (e == FrameEnd && kind == ACK_FRAME)
    ensures AcksIn([kind]) == AcksFor([e]) == [kind]
  {
    assert [kind][..0] == [] && [e][..0] == [];
  }

  /** A sent acknowledgement goes with its broadcast, and nothing else goes with either. */
  lemma ReactPairs(state: HostState, c: Command, ok: bool)
    requires WellFormed(state, c)
    ensures var a, es := if ok then RequiredAck(state, c) else [], React(state, c, ok).events;
            || (a == [ACK_RESET] && es == [ResetDone]) || (a == [ACK_FRAME] && es == [FrameEnd])
            || (a == [] && (es == [] || (|es| == 1 && !es[0].ResetDone? && !es[0].FrameEnd?)))
  {}

  lemma ReactAcks(state: HostState, c: Command, ok: bool)
    requires WellFormed(state, c)
    ensures var a, es := if ok then RequiredAck(state, c) else [], React(state, c, ok).events;
            |a| <= 1 && |es| <= 1 && AcksIn(a) == AcksFor(es)
  {
    ReactPairs(state, c, ok);
    AckSingle(ResetDone, ACK_RESET);
    AckSingle(FrameEnd, ACK_FRAME);
    var es := React(state, c, ok).events;
    if es != [] { assert es[..|es| - 1] == []; }
  }

  /** Successful acknowledgements match reset and frame-end broadcasts one for one, in order, whatever sends fail. */
  lemma {:induction false} AcksMatchBroadcasts(max: real, run: seq<Step>, hosts: seq<Host>)
    requires IsRun(max, run, hosts)
    ensures AcksIn(hosts[|run|].sent) == AcksFor(hosts[|run|].log)
    decreases |run|
  {
    if run != [] {
      Shorten(max, run, hosts);
      AcksMatchBroadcasts(max, run[..|run| - 1], hosts[..|run|]);
      var h := hosts[|run| - 1];
      match run[|run| - 1]
      case Connect(_) => AcksAppend(h.log, [Connected]);
      case Receive(c, ok, _) =>
        ReactAcks(h.state, c, ok);
        SentAppend(h.sent, if ok then RequiredAck(h.state, c) else []);
        AcksAppend(h.log, React(h.state, c, ok).events);
      case Timeout(_, _) => SentAppend(h.sent, [RESET]);
    }
  }

  lemma {:induction false} AcksForConcat(a: seq<Event>, b: seq<Event>)
    ensures AcksFor(a + b) == AcksFor(a) + AcksFor(b)
    decreases |b|
  {
    if b == [] {
      assert a + b == a;
    } else {
      AcksForConcat(a, b[..|b| - 1]);
      ConcatSplit(AcksFor(a), AcksFor(b[..|b| - 1]), AckFor(b[|b| - 1]));
      assert (a + b)[..|a + b| - 1] == a + b[..|b| - 1];
    }
  }

  lemma {:induction false} AcksInConcat(a: seq<byte>, b: seq<byte>)
    ensures AcksIn(a + b) == AcksIn(a) + AcksIn(b)
    decreases |b|
  {
    if b == [] {
      assert a + b == a;
    } else {
      AcksInConcat(a, b[..|b| - 1]);
      ConcatSplit(AcksIn(a), AcksIn(b[..|b| - 1]), AckIn(b[|b| - 1]));
      assert (a + b)[..|a + b| - 1] == a + b[..|b| - 1];
    }
  }

  lemma Cancel(a: seq<byte>, b: seq<byte>, c: seq<byte>)
    requires a + b == a + c
    ensures b == c
  {
    assert b == (a + b)[|a|..] && c == (a + c)[|a|..];
  }

  /** Where acknowledgements and broadcasts matched at an earlier moment, they match since that moment. */
  lemma AcksSuffix(sent: seq<byte>, sent': seq<byte>, log: seq<Event>, log': seq<Event>)
    requires sent <= sent' && log <= log'
    requires AcksIn(sent) == AcksFor(log) && AcksIn(sent') == AcksFor(log')
    ensures AcksIn(sent'[|sent|..]) == AcksFor(log'[|log|..])
  {
    var a, b := sent'[|sent|..], log'[|log|..];
    assert sent' == sent + a && log' == log + b;
    AcksInConcat(sent, a);
    AcksForConcat(log, b);
    Cancel(AcksIn(sent), AcksIn(a), AcksFor(b));
  }

  // ----- timeouts

  /** Reset requests sent since the last connection, and when that was. */
  ghost function RequestsSince(run: seq<Step>): nat {
    if run == [] then 0
    else match run[|run| - 1]
      case Connect(_) => 0
      case Receive(_, _, _) => RequestsSince(run[..|run| - 1])
      case Timeout(sent, _) => RequestsSince(run[..|run| - 1]) + (if sent then 1 else 0)
  }

  ghost function ConnectedAt(run: seq<Step>): real {
    if run == [] then 0.0
    else match run[|run| - 1]
      case Connect(now) => now
      case _ => ConnectedAt(run[..|run| - 1])
  }

  /** Reset requests are spaced by more than the maximum silence: k of them since a connection take more than
      k times that long. */
  lemma {:induction false} TimeoutsAreSpaced(max: real, run: seq<Step>, hosts: seq<Host>)
    requires IsRun(max, run, hosts) && max >= 0.0
    ensures var h, t := hosts[|run|], Times(RequestsSince(run), max);
            && ConnectedAt(run) <= h.last <= h.now
            && t <= h.last - ConnectedAt(run)
            && (RequestsSince(run) > 0 ==> t < h.now - ConnectedAt(run))
    decreases |run|
  {
    if run != [] {
      Shorten(max, run, hosts);
      TimeoutsAreSpaced(max, run[..|run| - 1], hosts[..|run|]);
      var k := RequestsSince(run[..|run| - 1]);
      assert Times(k + 1, max) == Times(k, max) + max;
    }
  }
}
