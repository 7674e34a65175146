/** The component that owns the serial connection, collects a frame's values and calls the bound delegates. */
module WaldoComponent {
  import opened Framing
  import opened ByteStream
  import opened HostProtocol
  import opened HostStateMachine
  import opened Delivery
  import opened FrameHistory

  class WaldoComponent {
    const host: WaldoHostStateMachine
    var connected: bool
    var registeredInputs: seq<Input>
    var frameInputValues: seq<InputValue>
    var inputBindings: seq<Binding>
    var dead: set<Delegate>
    var outputs: seq<Output>
    ghost var history: seq<Action>

    /** The component's state and everything it has delivered are what its history says. */
    ghost predicate Consistent()
      reads this
    {
      && registeredInputs == RegisteredSince(history)
      && frameInputValues == Collected(history)
      && inputBindings == BindingsOf(history)
      && dead == Destroyed(history)
      && outputs == AllDelivered(history)
    }

    ghost predicate Valid()
      reads this, host, host.stream, host.clock
    {
      && host.Valid()
      && (connected ==> host.stream.port != null)
      && EventsOf(history) == host.log
      && Consistent()
    }

    constructor (clock: Clock, maxTimeBetweenCommands: real)
      requires clock.now >= 0.0
      ensures Valid() && !connected && outputs == [] && history == []
      ensures fresh(host) && fresh(host.stream) && host.clock == clock && host.stream.port == null
      ensures host.maxTimeBetweenCommands == maxTimeBetweenCommands && host.history == []
    {
      host := new WaldoHostStateMachine(clock, maxTimeBetweenCommands);
      connected := false;
      registeredInputs, frameInputValues, inputBindings, dead, outputs, history := [], [], [], {}, [], [];
    }

    /** Everything that the component has ever delivered is what each action of its history owed, piece by piece. */
    lemma Explained() returns (ends: seq<nat>, mss: seq<seq<Match>>)
      requires Valid()
      ensures Pieces(history, outputs, ends, mss)
    {
      ends, mss := EveryDelivery(history);
    }

    /** `opens` says whether the port could be opened. */
    method Connect(port: SerialPort, opens: bool) returns (ok: bool)
      requires Valid()
      modifies this, host, host.stream, host.clock
      ensures Valid() && connected == (old(connected) || opens)
      ensures ok == (!old(connected) && opens)
      ensures ok ==> host.Intact()
      ensures ok ==> host.stream.port == port && history == old(history) + [Broadcast(Connected)]
      ensures !ok ==> history == old(history) && host.stream.port == old(host.stream.port)
    {
      if connected || !opens {
        return false;
      }
      host.Reset(port);
      connected := true;
      BroadcastConnected();
      ok := true;
    }

    method BroadcastConnected()
      requires host.Valid() && host.stream.port != null && Consistent() && host.log == EventsOf(history) + [Connected]
      modifies this
      ensures Valid() && connected == old(connected) && history == old(history) + [Broadcast(Connected)]
    {
      HistorySnoc(history, Broadcast(Connected));
      HandleConnected();
    }

    method Disconnect() returns (ok: bool)
      requires Valid()
      modifies this
      ensures Valid() && !connected && ok == old(connected)
      ensures history == old(history) + if ok then [Action.Disconnect] else []
    {
      if !connected {
        return false;
      }
      connected := false;
      outputs := outputs + [OnDisconnected];
      Record(Action.Disconnect);
      ok := true;
    }

    method BindDelegateForInput(name: string, delegate: Delegate)
      requires Valid()
      modifies this
      ensures Valid() && connected == old(connected)
      ensures history == old(history) + [Bind(Binding(name, delegate))]
    {
      inputBindings := inputBindings + [Binding(name, delegate)];
      Record(Bind(Binding(name, delegate)));
    }

    method UnbindDelegateForInput(name: string, delegate: Delegate)
      requires Valid()
      modifies this
      ensures Valid() && connected == old(connected)
      ensures history == old(history) + [Unbind(Binding(name, delegate))]
    {
      inputBindings := RemoveBindings(inputBindings, Binding(name, delegate));
      Record(Unbind(Binding(name, delegate)));
    }

    /** The object behind a delegate goes away: executing the delegate has no effect from now on. */
    method DestroyDelegate(delegate: Delegate)
      requires Valid()
      modifies this
      ensures Valid() && connected == old(connected)
      ensures history == old(history) + [Destroy(delegate)]
    {
      dead := dead + {delegate};
      Record(Destroy(delegate));
    }

    ghost method Record(a: Action)
      modifies this`history
      ensures history == old(history) + [a]
      ensures history[..|old(history)|] == old(history)
      ensures EventsOf(history) == EventsOf(old(history)) + (if a.Broadcast? then [a.event] else [])
      ensures AllDelivered(history) == AllDelivered(old(history)) + Delivered(old(history), a)
    {
      HistorySnoc(history, a);
      history := history + [a];
    }

    /** One host tick: everything that has arrived is read, the commands in it become steps of the host's run, every
        broadcast is handled in order and nothing else happens to the component, except that exactly a failed send
        ends the connection. */
    method TickComponent() returns (ghost steps: seq<Step>, ghost partial: seq<byte>)
      requires Valid()
      requires connected ==> AllWellFormed(host.state, Parse(host.stream.Stream()).commands)
      modifies this, host, host.stream, host.clock, if host.stream.port == null then {} else {host.stream.port}
      ensures Valid() && old(host.log) <= host.log
      ensures history == old(history) + Broadcasts(host.log[|old(host.log)|..]) +
        if old(connected) && !connected then [Action.Disconnect] else []
      ensures host.history == old(host.history) + steps
      ensures !old(connected) ==> steps == [] && host.log == old(host.log)
      ensures connected <==> old(connected) && !LastFails(host.state, steps)
      ensures connected && old(host.Intact()) ==> host.Intact()
      ensures connected ==> host.stream.port.incoming == []
      ensures connected && AllReceived(steps) ==> AllWellFormed(host.state, Parse(host.stream.Stream()).commands)
      ensures connected ==>
        Transmitted(old(host.Sent()), host.Sent(), old(host.stream.port.written), host.stream.port.written)
      ensures old(connected) ==>
        Consumed(Parse(old(host.stream.Stream())), CommandsIn(steps), Parse(partial + host.stream.Stream()))
      ensures if AllReceived(steps) then partial == [] else Waiting(partial) && host.stream.buffer == []
    {
      steps, partial := [], [];
      if connected {
        steps, partial := TickConnected();
      }
    }

    method TickConnected() returns (ghost steps: seq<Step>, ghost partial: seq<byte>)
      requires Valid() && connected
      requires AllWellFormed(host.state, Parse(host.stream.Stream()).commands)
      modifies this, host, host.stream, host.clock, host.stream.port
      ensures Valid() && old(host.log) <= host.log
      ensures history == old(history) + Broadcasts(host.log[|old(host.log)|..]) +
        if connected then [] else [Action.Disconnect]
      ensures host.history == old(host.history) + steps
      ensures connected <==> !LastFails(host.state, steps)
      ensures connected && old(host.Intact()) ==> host.Intact()
      ensures connected ==> host.stream.port.incoming == []
      ensures connected && AllReceived(steps) ==> AllWellFormed(host.state, Parse(host.stream.Stream()).commands)
      ensures connected ==>
        Transmitted(old(host.Sent()), host.Sent(), old(host.stream.port.written), host.stream.port.written)
      ensures Consumed(Parse(old(host.stream.Stream())), CommandsIn(steps), Parse(partial + host.stream.Stream()))
      ensures if AllReceived(steps) then partial == [] else Waiting(partial) && host.stream.buffer == []
    {
      var ok;
      ok, steps, partial := TickHost();
      ghost var rest := Parse(host.stream.Stream());
      if !ok {
        var disconnected := Disconnect();
      }
      assert Parse(host.stream.Stream()) == rest;
    }

    method TickHost() returns (ok: bool, ghost steps: seq<Step>, ghost partial: seq<byte>)
      requires Valid() && connected
      requires AllWellFormed(host.state, Parse(host.stream.Stream()).commands)
      modifies this, host, host.stream, host.stream.port, host.clock
      ensures Valid() && connected && old(host.log) <= host.log
      ensures history == old(history) + Broadcasts(host.log[|old(host.log)|..])
      ensures host.history == old(host.history) + steps
      ensures old(host.Intact()) && ok ==> host.Intact()
      ensures ok == !LastFails(host.state, steps)
      ensures ok && AllReceived(steps) ==> AllWellFormed(host.state, Parse(host.stream.Stream()).commands)
      ensures ok ==> host.stream.port.incoming == []
      ensures ok ==> Transmitted(old(host.Sent()), host.Sent(), old(host.stream.port.written), host.stream.port.written)
      ensures Consumed(Parse(old(host.stream.Stream())), CommandsIn(steps), Parse(partial + host.stream.Stream()))
      ensures if AllReceived(steps) then partial == [] else Waiting(partial) && host.stream.buffer == []
    {
      var handled := |host.log|;
      ghost var before := host.log;
      label BeforeTick:
      ok, steps, partial := host.Tick();
      assert unchanged@BeforeTick(this);
      assert host.log[..handled] == before;
      HandleAll(handled);
    }

    method HandleAll(start: nat)
      requires host.Valid() && (connected ==> host.stream.port != null)
      requires start <= |host.log| && Consistent() && EventsOf(history) == host.log[..start]
      modifies this
      ensures Valid() && connected == old(connected)
      ensures history == old(history) + Broadcasts(host.log[start..])
    {
      RunFollowsProtocol(host.maxTimeBetweenCommands, host.history, host.hosts);
      ghost var log := host.log;
      for i := start to |host.log|
        invariant Consistent() && EventsOf(history) == log[..i] && connected == old(connected)
        invariant history == old(history) + Broadcasts(log[start..i])
      {
        BroadcastsSnoc(old(history), log, start, i);
        HandleOne(i);
      }
      assert log[..|log|] == log && log[start..|log|] == log[start..];
    }

    method HandleOne(i: nat)
      requires i < |host.log| && FollowsProtocol(host.log)
      requires Consistent() && EventsOf(history) == host.log[..i]
      modifies this
      ensures Consistent() && EventsOf(history) == host.log[..i + 1] && connected == old(connected)
      ensures history == old(history) + [Broadcast(host.log[i])]
    {
      ProtocolPrefix(host.log, i);
      Handle(host.log[i]);
    }

    /** The callback for one broadcast. */
    method Handle(e: Event)
      requires Consistent()
      requires e == FrameEnd ==> InFrame(EventsOf(history), |EventsOf(history)|)
      modifies this
      ensures Consistent() && history == old(history) + [Broadcast(e)] && connected == old(connected)
      ensures EventsOf(history) == old(EventsOf(history)) + [e]
    {
      HistorySnoc(history, Broadcast(e));
      match e {
        case Connected => HandleConnected();
        case ResetDone => HandleReset();
        case Message(text) => HandleMessage(text);
        case RegisterInput(input) => HandleRegisterInput(input);
        case FrameStart => HandleFrameStart();
        case Value(v) => HandleInputValue(v);
        case FrameEnd => var calls, ms := HandleFrameEnd();
      }
    }

    method HandleConnected()
      requires Consistent()
      modifies this
      ensures Consistent() && history == old(history) + [Broadcast(Connected)] && connected == old(connected)
      ensures outputs == old(outputs) + [OnConnected]
    {
      outputs := outputs + [OnConnected];
      Record(Broadcast(Connected));
    }

    method HandleReset()
      requires Consistent()
      modifies this
      ensures Consistent() && history == old(history) + [Broadcast(ResetDone)] && connected == old(connected)
      ensures outputs == old(outputs) + [OnReset] && registeredInputs == [] && frameInputValues == []
    {
      registeredInputs, frameInputValues := [], [];
      outputs := outputs + [OnReset];
      Record(Broadcast(ResetDone));
    }

    method HandleMessage(text: string)
      requires Consistent()
      modifies this
      ensures Consistent() && history == old(history) + [Broadcast(Message(text))] && connected == old(connected)
      ensures outputs == old(outputs) + [OnMessage(text)]
    {
      outputs := outputs + [OnMessage(text)];
      Record(Broadcast(Message(text)));
    }

    method HandleRegisterInput(input: Input)
      requires Consistent()
      modifies this
      ensures Consistent() && history == old(history) + [Broadcast(RegisterInput(input))] && connected == old(connected)
      ensures outputs == old(outputs) && registeredInputs == old(registeredInputs) + [input]
    {
      registeredInputs := registeredInputs + [input];
      Record(Broadcast(RegisterInput(input)));
    }

    method HandleFrameStart()
      requires Consistent()
      modifies this
      ensures Consistent() && history == old(history) + [Broadcast(FrameStart)] && connected == old(connected)
      ensures outputs == old(outputs) && frameInputValues == []
    {
      frameInputValues := [];
      Record(Broadcast(FrameStart));
    }

    method HandleInputValue(value: InputValue)
      requires Consistent()
      modifies this
      ensures Consistent() && history == old(history) + [Broadcast(Value(value))] && connected == old(connected)
      ensures outputs == old(outputs) && frameInputValues == old(frameInputValues) + [value]
    {
      frameInputValues := frameInputValues + [value];
      Record(Broadcast(Value(value)));
    }

    /** The calls at the end of a frame are one for every registration since the last reset, value since the frame
        started and standing binding that belong together, in that order. */
    method HandleFrameEnd() returns (ghost calls: seq<Output>, ghost ms: seq<Match>)
      requires Consistent() && InFrame(EventsOf(history), |EventsOf(history)|)
      modifies this
      ensures Consistent() && history == old(history) + [Broadcast(FrameEnd)] && connected == old(connected)
      ensures outputs == old(outputs) + ([OnFrameStart] + calls + [OnFrameEnd]) && CallsMatches(old(history), calls, ms)
    {
      ms := FrameCallsExact(history);
      calls := CloseFrame();
    }

    method CloseFrame() returns (ghost calls: seq<Output>)
      requires Consistent() && InFrame(EventsOf(history), |EventsOf(history)|)
      modifies this
      ensures Consistent() && history == old(history) + [Broadcast(FrameEnd)] && connected == old(connected)
      ensures outputs == old(outputs) + ([OnFrameStart] + calls + [OnFrameEnd])
      ensures var h := old(history); calls == Join(RegisteredSince(h), ValuesSince(h), BindingsOf(h), Destroyed(h))
    {
      CollectedInFrame(history);
      calls := Join(registeredInputs, frameInputValues, inputBindings, dead);
      DeliverFrame();
      Record(Broadcast(FrameEnd));
    }

    method DeliverFrame()
      modifies this`frameInputValues, this`outputs
      ensures frameInputValues == []
      ensures outputs == old(outputs) +
        ([OnFrameStart] + Join(registeredInputs, old(frameInputValues), inputBindings, dead) + [OnFrameEnd])
    {
      outputs := outputs + [OnFrameStart];
      for i := 0 to |registeredInputs|
        invariant frameInputValues == old(frameInputValues)
        invariant outputs ==
          old(outputs) + [OnFrameStart] + Join(registeredInputs[..i], frameInputValues, inputBindings, dead)
      {
        assert registeredInputs[..i + 1][..i] == registeredInputs[..i];
        ghost var calls := Join(registeredInputs[..i], frameInputValues, inputBindings, dead);
        CallValues(registeredInputs[i]);
        ConcatOutputs(old(outputs) + [OnFrameStart], calls,
                      ValueCalls(registeredInputs[i], frameInputValues, inputBindings, dead));
      }
      assert registeredInputs[..|registeredInputs|] == registeredInputs;
      frameInputValues := [];
      outputs := outputs + [OnFrameEnd];
    }

    /** The two inner loops of `HandleFrameEnd`. */
    method CallValues(input: Input)
      modifies this`outputs
      ensures outputs == old(outputs) + ValueCalls(input, frameInputValues, inputBindings, dead)
    {
      for i := 0 to |frameInputValues|
        invariant outputs == old(outputs) + ValueCalls(input, frameInputValues[..i], inputBindings, dead)
      {
        assert frameInputValues[..i + 1][..i] == frameInputValues[..i];
        if input.id == frameInputValues[i].id {
          CallBindings(input.name, frameInputValues[i].value);
        }
      }
      assert frameInputValues[..|frameInputValues|] == frameInputValues;
    }

    method CallBindings(name: string, value: int)
      modifies this`outputs
      ensures outputs == old(outputs) + BindingCalls(name, value, inputBindings, dead)
    {
      for i := 0 to |inputBindings|
        invariant outputs == old(outputs) + BindingCalls(name, value, inputBindings[..i], dead)
      {
        assert inputBindings[..i + 1][..i] == inputBindings[..i];
        var binding := inputBindings[i];
        if SameLabel(binding.name, name) && binding.delegate !in dead {
          outputs := outputs + [Call(binding.delegate, value)];
        }
      }
      assert inputBindings[..|inputBindings|] == inputBindings;
    }
  }

  lemma ConcatOutputs(a: seq<Output>, b: seq<Output>, c: seq<Output>)
    ensures a + b + c == a + (b + c)
  {}

  /** A broadcast log up to one of its frame ends is inside a frame. */
  lemma ProtocolPrefix(log: seq<Event>, i: nat)
    requires FollowsProtocol(log) && i < |log|
    ensures log[..i + 1] == log[..i] + [log[i]]
    ensures log[i] == FrameEnd ==> InFrame(log[..i], i)
  {
    if log[i] == FrameEnd {
      assert InFrame(log, i);
      var j: nat :| j < i && log[j] == FrameStart && forall k: nat | j < k < i :: log[k].Value? || log[k].Message?;
      assert log[..i][j] == FrameStart && forall k: nat | j < k < i :: log[..i][k] == log[k];
    }
  }

  /** The loop of `UnbindDelegateForInput`: removes, from the end, every binding of b's label and delegate. */
  method RemoveBindings(bindings: seq<Binding>, b: Binding) returns (r: seq<Binding>)
    ensures r == Except(bindings, b)
  {
    r := bindings;
    var i := |bindings| - 1;
    while i >= 0
      invariant -1 <= i < |bindings|
      invariant r == bindings[..i + 1] + Except(bindings[i + 1..], b)
    {
      RemoveStep(bindings, i, b);
      if SameBinding(r[i], b) {
        r := r[..i] + r[i + 1..];
      }
      i := i - 1;
    }
  }

  lemma RemoveStep(bindings: seq<Binding>, i: nat, b: Binding)
    requires i < |bindings|
    ensures var kept, r := Except(bindings[i + 1..], b), bindings[..i + 1] + Except(bindings[i + 1..], b);
            && r[i] == bindings[i] && r[..i] == bindings[..i] && r[i + 1..] == kept
            && r == bindings[..i] + ([bindings[i]] + kept)
            && Except(bindings[i..], b) == (if SameBinding(bindings[i], b) then kept else [bindings[i]] + kept)
  {
    assert bindings[i..] == [bindings[i]] + bindings[i + 1..];
    ExceptConcat([bindings[i]], bindings[i + 1..], b);
    assert [bindings[i]][..0] == [];
  }

  lemma {:induction false} ExceptConcat(s: seq<Binding>, t: seq<Binding>, b: Binding)
    ensures Except(s + t, b) == Except(s, b) + Except(t, b)
    decreases |t|
  {
    if t == [] {
      assert s + t == s;
    } else {
      ExceptConcat(s, t[..|t| - 1], b);
      assert (s + t)[..|s + t| - 1] == s + t[..|t| - 1];
    }
  }
}
