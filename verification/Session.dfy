/** One short session, byte by byte, from the serial line to the delegate and back. */
module Session {
  import opened Framing
  import opened HostProtocol
  import opened Delivery

  // What the device sends: a reset, the input "k" with id 3, pin 9 and kind 0, and a frame with the value 200 for it.

  const RESET_BYTES: seq<byte> := [0x57, 0x41, 0x4C, 0x44, 0x4F, 0x52, 0]
  const INPUT_BYTES: seq<byte> := [0x57, 0x41, 0x4C, 0x44, 0x4F, 0x49, 4, 3, 9, 0, 0x6B]
  const START_BYTES: seq<byte> := [0x57, 0x41, 0x4C, 0x44, 0x4F, 0x46, 0]
  const VALUE_BYTES: seq<byte> := [0x57, 0x41, 0x4C, 0x44, 0x4F, 0x56, 2, 3, 200]
  const END_BYTES: seq<byte> := [0x57, 0x41, 0x4C, 0x44, 0x4F, 0x45, 0]

  const COMMANDS: seq<Command> :=
    [Command(0x52, []), Command(0x49, [3, 9, 0, 0x6B]), Command(0x46, []), Command(0x56, [3, 200]), Command(0x45, [])]

  /** A command in front of what parses to other commands. */
  lemma ParseOneMore(c: Command, t: seq<byte>, cs: seq<Command>)
    requires |c.data| < 256 && Parse(t) == Parsed(cs, [])
    ensures Parse(Encode(c) + t) == Parsed([c] + cs, [])
  {
    ParseEncoded(c, t);
  }

  lemma FrameParsed()
    ensures Parse(START_BYTES + (VALUE_BYTES + END_BYTES)) == Parsed(COMMANDS[2..], [])
  {
    SessionEncoded();
    ParseWaiting([]);
    ParseOneMore(COMMANDS[4], [], []);
    EmptyEnd(END_BYTES);
    ParseOneMore(COMMANDS[3], END_BYTES, [COMMANDS[4]]);
    ParseOneMore(COMMANDS[2], VALUE_BYTES + END_BYTES, [COMMANDS[3]] + [COMMANDS[4]]);
  }

  lemma SessionParsed()
    ensures Parse(RESET_BYTES + (INPUT_BYTES + (START_BYTES + (VALUE_BYTES + END_BYTES)))) == Parsed(COMMANDS, [])
  {
    var frame := START_BYTES + (VALUE_BYTES + END_BYTES);
    FrameParsed();
    SessionEncoded();
    ParseOneMore(COMMANDS[1], frame, COMMANDS[2..]);
    ParseOneMore(COMMANDS[0], INPUT_BYTES + frame, [COMMANDS[1]] + COMMANDS[2..]);
  }

  lemma EmptyEnd(s: seq<byte>)
    ensures s + [] == s
  {}

  lemma SessionEncoded()
    ensures RESET_BYTES == Encode(COMMANDS[0]) && INPUT_BYTES == Encode(COMMANDS[1])
    ensures START_BYTES == Encode(COMMANDS[2]) && VALUE_BYTES == Encode(COMMANDS[3]) && END_BYTES == Encode(COMMANDS[4])
  {}

  const EVENTS: seq<Event> :=
    [Connected, ResetDone, RegisterInput(Input("k", 9, 3, 0)), FrameStart, Value(InputValue(3, 200)), FrameEnd]

  /** The host connects at time 0 and handles the commands at once; every acknowledgement is sent. */
  lemma SessionBroadcasts() returns (run: seq<Step>, hosts: seq<Host>)
    ensures IsRun(1.0, run, hosts) && |run| == 6
    ensures forall i: nat | i < 5 :: run[i + 1] == Receive(COMMANDS[i], true, 0.0)
    ensures hosts[6].log == EVENTS && hosts[6].sent == [0x41, 0x4B] && hosts[6].state == Ready
  {
    run, hosts := SessionStep([], [INITIAL], Connect(0.0), Host(AwaitingReset, 0.0, 0.0, [EVENTS[0]], []));
    run, hosts := SessionStep(run, hosts, Receive(COMMANDS[0], true, 0.0),
                              Host(Ready, 0.0, 0.0, EVENTS[..2], [0x41]));
    assert Text([0x6B]) == "k";
    run, hosts := SessionStep(run, hosts, Receive(COMMANDS[1], true, 0.0),
                              Host(Ready, 0.0, 0.0, EVENTS[..3], [0x41]));
    run, hosts := SessionStep(run, hosts, Receive(COMMANDS[2], true, 0.0),
                              Host(Frame, 0.0, 0.0, EVENTS[..4], [0x41]));
    run, hosts := SessionStep(run, hosts, Receive(COMMANDS[3], true, 0.0),
                              Host(Frame, 0.0, 0.0, EVENTS[..5], [0x41]));
    run, hosts := SessionStep(run, hosts, Receive(COMMANDS[4], true, 0.0),
                              Host(Ready, 0.0, 0.0, EVENTS, [0x41, 0x4B]));
  }

  lemma SessionStep(run: seq<Step>, hosts: seq<Host>, s: Step, h: Host) returns (run': seq<Step>, hosts': seq<Host>)
    requires IsRun(1.0, run, hosts) && Takes(1.0, hosts[|run|], s, h)
    ensures run' == run + [s] && hosts' == hosts + [h] && IsRun(1.0, run', hosts')
  {
    Extend(1.0, run, hosts, s, h);
    run', hosts' := run + [s], hosts + [h];
  }

  /** What a history in which only "K" was bound, to d, has come to. */
  ghost predicate Reading(h: seq<Action>, d: Delegate, inputs: seq<Input>, values: seq<InputValue>, out: seq<Output>) {
    && BindingsOf(h) == [Binding("K", d)] && Destroyed(h) == {}
    && RegisteredSince(h) == inputs && ValuesSince(h) == values && AllDelivered(h) == out
  }

  lemma ReadingNext(h: seq<Action>, d: Delegate, inputs: seq<Input>, values: seq<InputValue>, out: seq<Output>,
                    e: Event)
    requires Reading(h, d, inputs, values, out)
    ensures Reading(h + [Broadcast(e)], d,
                    if e == ResetDone then [] else if e.RegisterInput? then inputs + [e.input] else inputs,
                    if e == FrameStart then [] else if e.Value? then values + [e.value] else values,
                    out + Delivered(h, Broadcast(e)))
  {
    HistorySnoc(h, Broadcast(e));
  }

  lemma SessionJoin(d: Delegate)
    ensures Join([Input("k", 9, 3, 0)], [InputValue(3, 200)], [Binding("K", d)], {}) == [Call(d, 200)]
  {
    assert SameLabel("K", "k");
    assert [Binding("K", d)][..0] == [] && [InputValue(3, 200)][..0] == [] && [Input("k", 9, 3, 0)][..0] == [];
    assert BindingCalls("k", 200, [Binding("K", d)], {}) == [] + [Call(d, 200)];
    assert ValueCalls(Input("k", 9, 3, 0), [InputValue(3, 200)], [Binding("K", d)], {}) == [] + [Call(d, 200)];
  }

  /** A delegate bound to "K" is called once, with the value. */
  lemma SessionDelivered(d: Delegate) returns (h: seq<Action>)
    ensures h == [Bind(Binding("K", d)), Broadcast(Connected), Broadcast(ResetDone),
                  Broadcast(RegisterInput(Input("k", 9, 3, 0))), Broadcast(FrameStart),
                  Broadcast(Value(InputValue(3, 200))), Broadcast(FrameEnd)]
    ensures AllDelivered(h) == [OnConnected, OnReset, OnFrameStart, Call(d, 200), OnFrameEnd]
  {
    h := SessionCollected(d);
    SessionEnd(h, d);
    h := h + [Broadcast(FrameEnd)];
  }

  lemma SessionEnd(h: seq<Action>, d: Delegate)
    requires Reading(h, d, [Input("k", 9, 3, 0)], [InputValue(3, 200)], [OnConnected, OnReset])
    ensures AllDelivered(h + [Broadcast(FrameEnd)]) ==
      [OnConnected, OnReset, OnFrameStart, Call(d, 200), OnFrameEnd]
  {
    ReadingNext(h, d, [Input("k", 9, 3, 0)], [InputValue(3, 200)], [OnConnected, OnReset], FrameEnd);
    SessionJoin(d);
  }

  lemma SessionCollected(d: Delegate) returns (h: seq<Action>)
    ensures h == [Bind(Binding("K", d)), Broadcast(Connected), Broadcast(ResetDone),
                  Broadcast(RegisterInput(Input("k", 9, 3, 0))), Broadcast(FrameStart),
                  Broadcast(Value(InputValue(3, 200)))]
    ensures Reading(h, d, [Input("k", 9, 3, 0)], [InputValue(3, 200)], [OnConnected, OnReset])
  {
    h := SessionRegistered(d);
    ReadingNext(h, d, [Input("k", 9, 3, 0)], [], [OnConnected, OnReset], FrameStart);
    h := h + [Broadcast(FrameStart)];
    ReadingNext(h, d, [Input("k", 9, 3, 0)], [], [OnConnected, OnReset], Value(InputValue(3, 200)));
    h := h + [Broadcast(Value(InputValue(3, 200)))];
  }

  lemma SessionRegistered(d: Delegate) returns (h: seq<Action>)
    ensures h == [Bind(Binding("K", d)), Broadcast(Connected), Broadcast(ResetDone),
                  Broadcast(RegisterInput(Input("k", 9, 3, 0)))]
    ensures Reading(h, d, [Input("k", 9, 3, 0)], [], [OnConnected, OnReset])
  {
    h := [Bind(Binding("K", d))];
    assert h[..0] == [];
    ReadingNext(h, d, [], [], [], Connected);
    h := h + [Broadcast(Connected)];
    ReadingNext(h, d, [], [], [OnConnected], ResetDone);
    h := h + [Broadcast(ResetDone)];
    ReadingNext(h, d, [], [], [OnConnected, OnReset], RegisterInput(Input("k", 9, 3, 0)));
    h := h + [Broadcast(RegisterInput(Input("k", 9, 3, 0)))];
  }
}
