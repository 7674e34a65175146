/** What a Waldo component owes its listeners, read off the history of everything that happened to it. */
module Delivery {
  import opened HostProtocol

  type Delegate = nat

  datatype Binding = Binding(name: string, delegate: Delegate)

  /** How the engine's `FString` compares with `==`: without regard to the case of the letters A to Z. */
  predicate SameLabel(a: string, b: string) {
    |a| == |b| && forall i | 0 <= i < |a| :: Fold(a[i]) == Fold(b[i])
  }

  function Fold(c: char): char {
    if 'A' <= c <= 'Z' then (c as int + 32) as char else c
  }

  /** Two labels are the same exactly when, letter by letter, they differ at most in the case of A to Z. */
  lemma SameLabelExact(a: string, b: string)
    ensures SameLabel(a, b) <==>
      && |a| == |b|
      && forall i | 0 <= i < |a| ::
           || a[i] == b[i]
           || ('A' <= a[i] <= 'Z' && b[i] as int == a[i] as int + ('a' as int - 'A' as int))
           || ('A' <= b[i] <= 'Z' && a[i] as int == b[i] as int + ('a' as int - 'A' as int))
  {
    if SameLabel(a, b) {
      forall i | 0 <= i < |a| ensures Fold(a[i]) == Fold(b[i]) {}
    }
  }

  predicate SameBinding(a: Binding, b: Binding) {
    SameLabel(a.name, b.name) && a.delegate == b.delegate
  }

  datatype Output =
    | OnConnected
    | OnDisconnected
    | OnReset
    | OnMessage(text: string)
    | OnFrameStart
    | Call(delegate: Delegate, value: int)
    | OnFrameEnd

  /** A broadcast of the host, or something the owner of the component does. */
  datatype Action =
    | Broadcast(event: Event)
    | Bind(binding: Binding)
    | Unbind(binding: Binding)
    | Destroy(delegate: Delegate)
    | Disconnect

  // ----- reading the history

  /** The inputs registered since the last reset. */
  function RegisteredSince(h: seq<Action>): seq<Input> {
    if h == [] then []
    else match h[|h| - 1]
      case Broadcast(ResetDone) => []
      case Broadcast(RegisterInput(input)) => RegisteredSince(h[..|h| - 1]) + [input]
      case _ => RegisteredSince(h[..|h| - 1])
  }

  /** The values received since the last start of a frame. */
  function ValuesSince(h: seq<Action>): seq<InputValue> {
    if h == [] then []
    else match h[|h| - 1]
      case Broadcast(FrameStart) => []
      case Broadcast(Value(v)) => ValuesSince(h[..|h| - 1]) + [v]
      case _ => ValuesSince(h[..|h| - 1])
  }

  function BindingsOf(h: seq<Action>): seq<Binding> {
    if h == [] then []
    else match h[|h| - 1]
      case Bind(b) => BindingsOf(h[..|h| - 1]) + [b]
      case Unbind(b) => Except(BindingsOf(h[..|h| - 1]), b)
      case _ => BindingsOf(h[..|h| - 1])
  }

  function Except(bs: seq<Binding>, b: Binding): seq<Binding> {
    if bs == [] then []
    else Except(bs[..|bs| - 1], b) + if SameBinding(bs[|bs| - 1], b) then [] else [bs[|bs| - 1]]
  }

  function Destroyed(h: seq<Action>): set<Delegate> {
    if h == [] then {}
    else Destroyed(h[..|h| - 1]) + match h[|h| - 1] { case Destroy(d) => {d} case _ => {} }
  }

  function EventsOf(h: seq<Action>): seq<Event> {
    if h == [] then []
    else EventsOf(h[..|h| - 1]) + match h[|h| - 1] { case Broadcast(e) => [e] case _ => [] }
  }

  function Broadcasts(events: seq<Event>): (h: seq<Action>)
    ensures |h| == |events|
  {
    seq(|events|, i requires 0 <= i < |events| => Broadcast(events[i]))
  }

  lemma BroadcastsSnoc(h: seq<Action>, log: seq<Event>, start: nat, i: nat)
    requires start <= i < |log|
    ensures h + Broadcasts(log[start..i + 1]) == h + Broadcasts(log[start..i]) + [Broadcast(log[i])]
  {
    assert log[start..i + 1] == log[start..i] + [log[i]];
  }

  // ----- the join of a frame

  function BindingCalls(name: string, value: int, bs: seq<Binding>, dead: set<Delegate>): seq<Output> {
    if bs == [] then []
    else
      var b := bs[|bs| - 1];
      BindingCalls(name, value, bs[..|bs| - 1], dead) +
        if SameLabel(b.name, name) && b.delegate !in dead then [Call(b.delegate, value)] else []
  }

  function ValueCalls(input: Input, vs: seq<InputValue>, bs: seq<Binding>, dead: set<Delegate>): seq<Output> {
    if vs == [] then []
    else
      var v := vs[|vs| - 1];
      ValueCalls(input, vs[..|vs| - 1], bs, dead) +
        if v.id == input.id then BindingCalls(input.name, v.value, bs, dead) else []
  }

  /** The calls of a frame: for each registered input, each value with its id, each binding of its name, in order. */
  function Join(inputs: seq<Input>, vs: seq<InputValue>, bs: seq<Binding>, dead: set<Delegate>): seq<Output> {
    if inputs == [] then []
    else Join(inputs[..|inputs| - 1], vs, bs, dead) + ValueCalls(inputs[|inputs| - 1], vs, bs, dead)
  }

  /** What a frame end joins. */
  datatype FrameData = FrameData(
    inputs: seq<Input>,
    values: seq<InputValue>,
    bindings: seq<Binding>,
    dead: set<Delegate>
  )

  /** A registered input, a received value and a binding, by their positions. */
  datatype Match = Match(input: nat, value: nat, binding: nat)

  /** The value is for the input, and the binding is for its name and alive. */
  ghost predicate Fits(f: FrameData, m: Match) {
    && m.input < |f.inputs| && m.value < |f.values| && m.binding < |f.bindings|
    && f.values[m.value].id == f.inputs[m.input].id
    && SameLabel(f.bindings[m.binding].name, f.inputs[m.input].name) && f.bindings[m.binding].delegate !in f.dead
  }

  ghost predicate IsCallOf(f: FrameData, m: Match, out: Output) {
    Fits(f, m) && out == Call(f.bindings[m.binding].delegate, f.values[m.value].value)
  }

  /** The order of the calls: by input, then by value, then by binding. */
  ghost predicate Before(a: Match, b: Match) {
    || a.input < b.input
    || (a.input == b.input && (a.value < b.value || (a.value == b.value && a.binding < b.binding)))
  }

  /** `out` calls the matches `ms`, which are in order and are exactly those in `range`. */
  ghost predicate Lists(f: FrameData, out: seq<Output>, ms: seq<Match>, range: iset<Match>) {
    && |out| == |ms|
    && (forall k: nat | k < |ms| :: ms[k] in range && IsCallOf(f, ms[k], out[k]))
    && (forall j: nat, k: nat | j < k < |ms| :: Before(ms[j], ms[k]))
    && (forall m | m in range :: m in ms)
  }

  /** Lists of two ranges, one wholly before the other, make up a list of both. */
  lemma ListsConcat(f: FrameData, out: seq<Output>, ms: seq<Match>, range: iset<Match>,
                    out': seq<Output>, ms': seq<Match>, range': iset<Match>)
    requires Lists(f, out, ms, range) && Lists(f, out', ms', range')
    requires forall m, m' | m in range && m' in range' :: Before(m, m')
    ensures Lists(f, out + out', ms + ms', range + range')
  {}

  lemma BindingCallsListed(f: FrameData, i: nat, v: nat, n: nat) returns (ms: seq<Match>)
    requires i < |f.inputs| && v < |f.values| && f.values[v].id == f.inputs[i].id && n <= |f.bindings|
    ensures Lists(f, BindingCalls(f.inputs[i].name, f.values[v].value, f.bindings[..n], f.dead), ms,
                  iset m: Match | Fits(f, m) && m.input == i && m.value == v && m.binding < n)
  {
    if n == 0 {
      ms := [];
    } else {
      ms := BindingCallsListed(f, i, v, n - 1);
      assert f.bindings[..n][..n - 1] == f.bindings[..n - 1];
      var range := iset m: Match | Fits(f, m) && m.input == i && m.value == v && m.binding < n - 1;
      var last := Match(i, v, n - 1);
      if Fits(f, last) {
        ListsConcat(f, BindingCalls(f.inputs[i].name, f.values[v].value, f.bindings[..n - 1], f.dead), ms, range,
                    [Call(f.bindings[n - 1].delegate, f.values[v].value)], [last], iset{last});
        ms := ms + [last];
        assert range + iset{last} == iset m: Match | Fits(f, m) && m.input == i && m.value == v && m.binding < n;
      } else {
        assert range == iset m: Match | Fits(f, m) && m.input == i && m.value == v && m.binding < n;
      }
    }
  }

  lemma ValueCallsListed(f: FrameData, i: nat, n: nat) returns (ms: seq<Match>)
    requires i < |f.inputs| && n <= |f.values|
    ensures Lists(f, ValueCalls(f.inputs[i], f.values[..n], f.bindings, f.dead), ms,
                  iset m: Match | Fits(f, m) && m.input == i && m.value < n)
  {
    if n == 0 {
      ms := [];
    } else {
      ms := ValueCallsListed(f, i, n - 1);
      assert f.values[..n][..n - 1] == f.values[..n - 1];
      var range := iset m: Match | Fits(f, m) && m.input == i && m.value < n - 1;
      if f.values[n - 1].id == f.inputs[i].id {
        var last := BindingCallsListed(f, i, n - 1, |f.bindings|);
        assert f.bindings[..|f.bindings|] == f.bindings;
        var range' := iset m: Match | Fits(f, m) && m.input == i && m.value == n - 1 && m.binding < |f.bindings|;
        ListsConcat(f, ValueCalls(f.inputs[i], f.values[..n - 1], f.bindings, f.dead), ms, range,
                    BindingCalls(f.inputs[i].name, f.values[n - 1].value, f.bindings, f.dead), last, range');
        ms := ms + last;
        assert range + range' == iset m: Match | Fits(f, m) && m.input == i && m.value < n;
      } else {
        assert range == iset m: Match | Fits(f, m) && m.input == i && m.value < n;
      }
    }
  }

  lemma JoinListed(f: FrameData, n: nat) returns (ms: seq<Match>)
    requires n <= |f.inputs|
    ensures Lists(f, Join(f.inputs[..n], f.values, f.bindings, f.dead), ms, iset m: Match | Fits(f, m) && m.input < n)
  {
    if n == 0 {
      ms := [];
    } else {
      ms := JoinListed(f, n - 1);
      assert f.inputs[..n][..n - 1] == f.inputs[..n - 1];
      var last := ValueCallsListed(f, n - 1, |f.values|);
      assert f.values[..|f.values|] == f.values;
      var range := iset m: Match | Fits(f, m) && m.input < n - 1;
      var range' := iset m: Match | Fits(f, m) && m.input == n - 1 && m.value < |f.values|;
      ListsConcat(f, Join(f.inputs[..n - 1], f.values, f.bindings, f.dead), ms, range,
                  ValueCalls(f.inputs[n - 1], f.values, f.bindings, f.dead), last, range');
      ms := ms + last;
      assert range + range' == iset m: Match | Fits(f, m) && m.input < n;
    }
  }

  /** The calls of a frame are one for every match of a registered input, a value received for its id and a living
      binding of its name, ordered by input, value and binding. */
  lemma JoinExact(f: FrameData) returns (ms: seq<Match>)
    ensures var out := Join(f.inputs, f.values, f.bindings, f.dead);
            && |out| == |ms|
            && (forall k: nat | k < |ms| :: IsCallOf(f, ms[k], out[k]))
            && (forall j: nat, k: nat | j < k < |ms| :: Before(ms[j], ms[k]))
    ensures forall m :: Fits(f, m) <==> m in ms
  {
    ms := JoinListed(f, |f.inputs|);
    assert f.inputs[..|f.inputs|] == f.inputs;
    var range := iset m: Match | Fits(f, m) && m.input < |f.inputs|;
    forall m ensures Fits(f, m) <==> m in ms {
      assert Fits(f, m) <==> m in range;
    }
  }

  lemma BindingCallsSnoc(name: string, value: int, bs: seq<Binding>, b: Binding, dead: set<Delegate>)
    ensures BindingCalls(name, value, bs + [b], dead) ==
      BindingCalls(name, value, bs, dead) +
        if SameLabel(b.name, name) && b.delegate !in dead then [Call(b.delegate, value)] else []
  {
    assert (bs + [b])[..|bs|] == bs;
  }

  /** Unbinding undoes binding whatever the case of the labels: the delegate is no longer called for any spelling of
      the label, and for every other label all is as before. */
  lemma {:induction false} UnbindSilences(name: string, value: int, bs: seq<Binding>, b: Binding, dead: set<Delegate>)
    ensures SameLabel(name, b.name) ==> Call(b.delegate, value) !in BindingCalls(name, value, Except(bs, b), dead)
    ensures !SameLabel(name, b.name) ==>
      BindingCalls(name, value, Except(bs, b), dead) == BindingCalls(name, value, bs, dead)
  {
    if bs != [] {
      var prefix, last := bs[..|bs| - 1], bs[|bs| - 1];
      UnbindSilences(name, value, prefix, b, dead);
      if SameBinding(last, b) {
        assert Except(bs, b) == Except(prefix, b);
        assert SameLabel(last.name, name) ==> SameLabel(name, b.name);
      } else {
        BindingCallsSnoc(name, value, Except(prefix, b), last, dead);
        assert SameLabel(last.name, name) && SameLabel(name, b.name) ==> SameLabel(last.name, b.name);
      }
    }
  }

  // ----- what is delivered

  /** What an action delivers, given the history before it. */
  function Delivered(h: seq<Action>, a: Action): seq<Output> {
    match a
    case Broadcast(Connected) => [OnConnected]
    case Broadcast(ResetDone) => [OnReset]
    case Broadcast(Message(text)) => [OnMessage(text)]
    case Broadcast(FrameEnd) =>
      [OnFrameStart] + Join(RegisteredSince(h), ValuesSince(h), BindingsOf(h), Destroyed(h)) + [OnFrameEnd]
    case Disconnect => [OnDisconnected]
    case _ => []
  }

  function AllDelivered(h: seq<Action>): seq<Output> {
    if h == [] then [] else AllDelivered(h[..|h| - 1]) + Delivered(h[..|h| - 1], h[|h| - 1])
  }

  // ----- the component's buffer of frame values

  /** The values that the component has collected: it forgets them at resets and at both ends of a frame. */
  function Collected(h: seq<Action>): seq<InputValue> {
    if h == [] then []
    else match h[|h| - 1]
      case Broadcast(ResetDone) => []
      case Broadcast(FrameStart) => []
      case Broadcast(FrameEnd) => []
      case Broadcast(Value(v)) => Collected(h[..|h| - 1]) + [v]
      case _ => Collected(h[..|h| - 1])
  }

  /** Inside a frame of a log that follows the protocol, what was collected is what came since the frame started. */
  lemma {:induction false} CollectedInFrame(h: seq<Action>)
    requires InFrame(EventsOf(h), |EventsOf(h)|)
    ensures Collected(h) == ValuesSince(h)
    decreases |h|
  {
    var prefix, log := h[..|h| - 1], EventsOf(h);
    if h[|h| - 1].Broadcast? {
      var e := h[|h| - 1].event;
      assert log == EventsOf(prefix) + [e] && log[|log| - 1] == e;
      if e != FrameStart {
        var j: nat :| j < |log| && log[j] == FrameStart &&
                      forall k: nat | j < k < |log| :: log[k].Value? || log[k].Message?;
        assert EventsOf(prefix)[j] == FrameStart && forall k: nat | j < k < |log| - 1 :: EventsOf(prefix)[k] == log[k];
        CollectedInFrame(prefix);
      }
    } else {
      assert log == EventsOf(prefix);
      CollectedInFrame(prefix);
    }
  }

  /** All readings of a history with one more action. */
  lemma HistorySnoc(h: seq<Action>, a: Action)
    ensures (h + [a])[..|h|] == h
    ensures EventsOf(h + [a]) == EventsOf(h) + (if a.Broadcast? then [a.event] else [])
    ensures AllDelivered(h + [a]) == AllDelivered(h) + Delivered(h, a)
  {
    assert (h + [a])[..|h|] == h;
  }
}
