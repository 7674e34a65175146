/** What a Waldo component owes its listeners, told by positions in its history alone: which registrations, values and
    bindings still stand, and which of them a frame end brings together. */
module FrameHistory {
  import opened HostProtocol
  import opened Delivery

  ghost predicate Ascending(ps: seq<nat>) {
    forall j: nat, k: nat | j < k < |ps| :: ps[j] < ps[k]
  }

  /** `ps` are the positions in `range`, in order. */
  ghost predicate Enumerates(ps: seq<nat>, range: iset<nat>) {
    Ascending(ps) && forall i: nat :: i in ps <==> i in range
  }

  lemma EnumeratesSnoc(ps: seq<nat>, range: iset<nat>, n: nat)
    requires Enumerates(ps, range) && forall i | i in range :: i < n
    ensures Enumerates(ps + [n], range + iset{n})
  {
    forall k: nat | k < |ps| ensures ps[k] < n { assert ps[k] in ps; }
  }

  // ----- what still stands

  /** An input was registered at i, and no reset came after it. */
  ghost predicate Registered(h: seq<Action>, i: nat) {
    && i < |h| && h[i].Broadcast? && h[i].event.RegisterInput?
    && forall k: nat | i < k < |h| :: h[k] != Broadcast(ResetDone)
  }

  /** A value came at i, and no frame started after it. */
  ghost predicate Received(h: seq<Action>, i: nat) {
    && i < |h| && h[i].Broadcast? && h[i].event.Value?
    && forall k: nat | i < k < |h| :: h[k] != Broadcast(FrameStart)
  }

  /** A delegate was bound at i, and not unbound from any spelling of the label after that. */
  ghost predicate Bound(h: seq<Action>, i: nat) {
    && i < |h| && h[i].Bind?
    && forall k: nat | i < k < |h| && h[k].Unbind? :: !SameBinding(h[k].binding, h[i].binding)
  }

  ghost predicate Alive(h: seq<Action>, d: Delegate) {
    forall k: nat | k < |h| :: h[k] != Destroy(d)
  }

  ghost function Registrations(h: seq<Action>): iset<nat> {
    iset i: nat | Registered(h, i)
  }

  ghost function Receipts(h: seq<Action>): iset<nat> {
    iset i: nat | Received(h, i)
  }

  ghost function Bonds(h: seq<Action>): iset<nat> {
    iset i: nat | Bound(h, i)
  }

  ghost predicate InputsAt(h: seq<Action>, inputs: seq<Input>, ps: seq<nat>) {
    && |ps| == |inputs|
    && forall k: nat | k < |ps| :: ps[k] < |h| && h[ps[k]] == Broadcast(RegisterInput(inputs[k]))
  }

  lemma InputsKept(h: seq<Action>, inputs: seq<Input>, ps: seq<nat>)
    requires h != [] && InputsAt(h[..|h| - 1], inputs, ps)
    ensures InputsAt(h, inputs, ps)
    ensures forall x :: h[|h| - 1] == Broadcast(RegisterInput(x)) ==> InputsAt(h, inputs + [x], ps + [|h| - 1])
  {
    assert forall k: nat | k < |h| - 1 :: h[..|h| - 1][k] == h[k];
  }

  lemma RegistrationsSnoc(h: seq<Action>)
    requires h != []
    ensures var n, prefix := |h| - 1, Registrations(h[..|h| - 1]);
            && (forall i | i in prefix :: i < n)
            && Registrations(h) ==
                 if h[n] == Broadcast(ResetDone) then iset{}
                 else if h[n].Broadcast? && h[n].event.RegisterInput? then prefix + iset{n}
                 else prefix
  {
    assert forall k: nat | k < |h| - 1 :: h[..|h| - 1][k] == h[k];
  }

  /** The inputs registered since the last reset are, in order, those of the registrations that still stand. */
  lemma {:induction false} RegisteredExact(h: seq<Action>) returns (ps: seq<nat>)
    ensures InputsAt(h, RegisteredSince(h), ps) && Enumerates(ps, Registrations(h))
  {
    ps := [];
    if h != [] {
      var n := |h| - 1;
      var before := RegisteredExact(h[..n]);
      RegistrationsSnoc(h);
      InputsKept(h, RegisteredSince(h[..n]), before);
      if h[n].Broadcast? && h[n].event.RegisterInput? {
        EnumeratesSnoc(before, Registrations(h[..n]), n);
        ps := before + [n];
      } else if h[n] != Broadcast(ResetDone) {
        ps := before;
      }
    }
  }

  ghost predicate ValuesAt(h: seq<Action>, values: seq<InputValue>, ps: seq<nat>) {
    && |ps| == |values|
    && forall k: nat | k < |ps| :: ps[k] < |h| && h[ps[k]] == Broadcast(Value(values[k]))
  }

  lemma ValuesKept(h: seq<Action>, values: seq<InputValue>, ps: seq<nat>)
    requires h != [] && ValuesAt(h[..|h| - 1], values, ps)
    ensures ValuesAt(h, values, ps)
    ensures forall x :: h[|h| - 1] == Broadcast(Value(x)) ==> ValuesAt(h, values + [x], ps + [|h| - 1])
  {
    assert forall k: nat | k < |h| - 1 :: h[..|h| - 1][k] == h[k];
  }

  lemma ReceiptsSnoc(h: seq<Action>)
    requires h != []
    ensures var n, prefix := |h| - 1, Receipts(h[..|h| - 1]);
            && (forall i | i in prefix :: i < n)
            && Receipts(h) ==
                 if h[n] == Broadcast(FrameStart) then iset{}
                 else if h[n].Broadcast? && h[n].event.Value? then prefix + iset{n}
                 else prefix
  {
    assert forall k: nat | k < |h| - 1 :: h[..|h| - 1][k] == h[k];
  }

  /** The values received since a frame started are, in order, those that still stand. */
  lemma {:induction false} ReceivedExact(h: seq<Action>) returns (ps: seq<nat>)
    ensures ValuesAt(h, ValuesSince(h), ps) && Enumerates(ps, Receipts(h))
  {
    ps := [];
    if h != [] {
      var n := |h| - 1;
      var before := ReceivedExact(h[..n]);
      ReceiptsSnoc(h);
      ValuesKept(h, ValuesSince(h[..n]), before);
      if h[n].Broadcast? && h[n].event.Value? {
        EnumeratesSnoc(before, Receipts(h[..n]), n);
        ps := before + [n];
      } else if h[n] != Broadcast(FrameStart) {
        ps := before;
      }
    }
  }

  /** `bs` are the bindings made at the positions `ps`. */
  ghost predicate BoundAt(h: seq<Action>, bs: seq<Binding>, ps: seq<nat>) {
    |ps| == |bs| && forall k: nat | k < |ps| :: ps[k] < |h| && h[ps[k]] == Bind(bs[k])
  }

  lemma BindingsKept(h: seq<Action>, bs: seq<Binding>, ps: seq<nat>)
    requires h != [] && BoundAt(h[..|h| - 1], bs, ps)
    ensures BoundAt(h, bs, ps)
    ensures forall x :: h[|h| - 1] == Bind(x) ==> BoundAt(h, bs + [x], ps + [|h| - 1])
  {
    assert forall k: nat | k < |h| - 1 :: h[..|h| - 1][k] == h[k];
  }

  ghost predicate Binds(h: seq<Action>, i: nat, b: Binding) {
    i < |h| && h[i].Bind? && SameBinding(h[i].binding, b)
  }

  ghost function Others(h: seq<Action>, ps: seq<nat>, b: Binding): iset<nat> {
    iset i: nat | i in ps && !Binds(h, i, b)
  }

  lemma {:induction false} ExceptAt(h: seq<Action>, bs: seq<Binding>, ps: seq<nat>, b: Binding) returns (qs: seq<nat>)
    requires BoundAt(h, bs, ps) && Ascending(ps)
    ensures BoundAt(h, Except(bs, b), qs) && Enumerates(qs, Others(h, ps, b))
    decreases |bs|
  {
    qs := [];
    if bs != [] {
      var n := |bs| - 1;
      assert ps == ps[..n] + [ps[n]];
      qs := ExceptAt(h, bs[..n], ps[..n], b);
      if !SameBinding(bs[n], b) {
        EnumeratesSnoc(qs, Others(h, ps[..n], b), ps[n]);
        qs := qs + [ps[n]];
      }
    }
  }

  lemma BondsSnoc(h: seq<Action>)
    requires h != []
    ensures var n, prefix, a := |h| - 1, Bonds(h[..|h| - 1]), h[|h| - 1];
            && (forall i | i in prefix :: i < n)
            && Bonds(h) ==
                 if a.Unbind? then iset i: nat | i in prefix && !Binds(h, i, a.binding)
                 else if a.Bind? then prefix + iset{n}
                 else prefix
  {
    var n := |h| - 1;
    assert forall k: nat | k < n :: h[..n][k] == h[k];
    if h[n].Unbind? {
      forall i: nat | i < n && h[i].Bind?
        ensures SameBinding(h[n].binding, h[i].binding) <==> SameBinding(h[i].binding, h[n].binding) {}
    }
  }

  /** The present bindings are, in order, those that still stand. */
  lemma {:induction false} BoundExact(h: seq<Action>) returns (ps: seq<nat>)
    ensures BoundAt(h, BindingsOf(h), ps) && Enumerates(ps, Bonds(h))
  {
    ps := [];
    if h != [] {
      var n := |h| - 1;
      var before := BoundExact(h[..n]);
      BondsSnoc(h);
      BindingsKept(h, BindingsOf(h[..n]), before);
      if h[n].Unbind? {
        ps := ExceptAt(h, BindingsOf(h[..n]), before, h[n].binding);
      } else if h[n].Bind? {
        EnumeratesSnoc(before, Bonds(h[..n]), n);
        ps := before + [n];
      } else {
        ps := before;
      }
    }
  }

  lemma {:induction false} DestroyedExact(h: seq<Action>, d: Delegate)
    ensures d !in Destroyed(h) <==> Alive(h, d)
  {
    if h != [] {
      DestroyedExact(h[..|h| - 1], d);
      assert Alive(h, d) <==> Alive(h[..|h| - 1], d) && h[|h| - 1] != Destroy(d);
    }
  }

  // ----- what a frame end brings together

  /** A registration, a value and a binding by their positions in the history: all three still stand, the value is for
      the input, and the binding is for some spelling of its name and alive. */
  ghost predicate Meets(h: seq<Action>, m: Match) {
    && Registered(h, m.input) && Received(h, m.value) && Bound(h, m.binding)
    && h[m.value].event.value.id == h[m.input].event.input.id
    && SameLabel(h[m.binding].binding.name, h[m.input].event.input.name)
    && Alive(h, h[m.binding].binding.delegate)
  }

  ghost predicate CallFor(h: seq<Action>, m: Match, out: Output) {
    Meets(h, m) && out == Call(h[m.binding].binding.delegate, h[m.value].event.value.value)
  }

  /** `out` calls, in order, exactly the matches `ms` that the history brings together. */
  ghost predicate CallsMatches(h: seq<Action>, out: seq<Output>, ms: seq<Match>) {
    && |out| == |ms|
    && (forall k: nat | k < |ms| :: CallFor(h, ms[k], out[k]))
    && (forall j: nat, k: nat | j < k < |ms| :: Before(ms[j], ms[k]))
    && (forall m | Meets(h, m) :: m in ms)
  }

  /** The positions at which a history made its frame data. */
  ghost predicate Places(h: seq<Action>, f: FrameData, ins: seq<nat>, vs: seq<nat>, bs: seq<nat>) {
    && InputsAt(h, f.inputs, ins) && ValuesAt(h, f.values, vs) && BoundAt(h, f.bindings, bs)
    && Enumerates(ins, Registrations(h)) && Enumerates(vs, Receipts(h)) && Enumerates(bs, Bonds(h))
    && (forall d :: d in f.dead <==> !Alive(h, d))
  }

  ghost predicate Within(m: Match, ins: seq<nat>, vs: seq<nat>, bs: seq<nat>) {
    m.input < |ins| && m.value < |vs| && m.binding < |bs|
  }

  function Moved(m: Match, ins: seq<nat>, vs: seq<nat>, bs: seq<nat>): Match
    requires Within(m, ins, vs, bs)
  {
    Match(ins[m.input], vs[m.value], bs[m.binding])
  }

  lemma MovedMeets(h: seq<Action>, f: FrameData, ins: seq<nat>, vs: seq<nat>, bs: seq<nat>, m: Match)
    requires Places(h, f, ins, vs, bs) && Within(m, ins, vs, bs)
    ensures Fits(f, m) <==> Meets(h, Moved(m, ins, vs, bs))
    ensures forall out :: IsCallOf(f, m, out) <==> CallFor(h, Moved(m, ins, vs, bs), out)
  {
    assert ins[m.input] in ins && vs[m.value] in vs && bs[m.binding] in bs;
    assert h[ins[m.input]].event.input == f.inputs[m.input];
    assert h[vs[m.value]].event.value == f.values[m.value];
    assert h[bs[m.binding]].binding == f.bindings[m.binding];
  }

  lemma MovedBefore(a: Match, b: Match, ins: seq<nat>, vs: seq<nat>, bs: seq<nat>)
    requires Within(a, ins, vs, bs) && Within(b, ins, vs, bs)
    requires Ascending(ins) && Ascending(vs) && Ascending(bs) && Before(a, b)
    ensures Before(Moved(a, ins, vs, bs), Moved(b, ins, vs, bs))
  {}

  /** Every match of the history is one of the frame data. */
  lemma Unmoved(h: seq<Action>, f: FrameData, ins: seq<nat>, vs: seq<nat>, bs: seq<nat>, m: Match) returns (fit: Match)
    requires Places(h, f, ins, vs, bs) && Meets(h, m)
    ensures Within(fit, ins, vs, bs) && Moved(fit, ins, vs, bs) == m && Fits(f, fit)
  {
    assert m.input in ins && m.value in vs && m.binding in bs;
    var i: nat :| i < |ins| && ins[i] == m.input;
    var v: nat :| v < |vs| && vs[v] == m.value;
    var b: nat :| b < |bs| && bs[b] == m.binding;
    fit := Match(i, v, b);
    MovedMeets(h, f, ins, vs, bs, fit);
  }

  lemma DataPlaces(h: seq<Action>) returns (f: FrameData, ins: seq<nat>, vs: seq<nat>, bs: seq<nat>)
    ensures f == FrameData(RegisteredSince(h), ValuesSince(h), BindingsOf(h), Destroyed(h))
    ensures Places(h, f, ins, vs, bs)
  {
    f := FrameData(RegisteredSince(h), ValuesSince(h), BindingsOf(h), Destroyed(h));
    ins := RegisteredExact(h);
    vs := ReceivedExact(h);
    bs := BoundExact(h);
    forall d ensures d in f.dead <==> !Alive(h, d) { DestroyedExact(h, d); }
  }

  /** The calls of a frame end are, with multiplicity and ordered by registration, value and binding, exactly one for
      every registration, value and binding of the history that still stand and belong together. */
  lemma FrameCallsExact(h: seq<Action>) returns (ms: seq<Match>)
    ensures CallsMatches(h, Join(RegisteredSince(h), ValuesSince(h), BindingsOf(h), Destroyed(h)), ms)
  {
    var f, ins, vs, bs := DataPlaces(h);
    var fits := JoinExact(f);
    ms := MovedCalls(h, f, ins, vs, bs, Join(f.inputs, f.values, f.bindings, f.dead), fits);
  }

  lemma MovedCalls(h: seq<Action>, f: FrameData, ins: seq<nat>, vs: seq<nat>, bs: seq<nat>, out: seq<Output>,
                   fits: seq<Match>) returns (ms: seq<Match>)
    requires Places(h, f, ins, vs, bs) && |out| == |fits|
    requires forall k: nat | k < |fits| :: IsCallOf(f, fits[k], out[k])
    requires forall j: nat, k: nat | j < k < |fits| :: Before(fits[j], fits[k])
    requires forall m | Fits(f, m) :: m in fits
    ensures CallsMatches(h, out, ms)
  {
    forall k: nat | k < |fits| ensures Within(fits[k], ins, vs, bs) { assert IsCallOf(f, fits[k], out[k]); }
    ms := seq(|fits|, k requires 0 <= k < |fits| => Moved(fits[k], ins, vs, bs));
    forall k: nat | k < |ms| ensures CallFor(h, ms[k], out[k]) {
      MovedMeets(h, f, ins, vs, bs, fits[k]);
    }
    forall j: nat, k: nat | j < k < |ms| ensures Before(ms[j], ms[k]) {
      MovedBefore(fits[j], fits[k], ins, vs, bs);
    }
    forall m | Meets(h, m) ensures m in ms {
      var fit := Unmoved(h, f, ins, vs, bs, m);
      var k: nat :| k < |fits| && fits[k] == fit;
      assert ms[k] == m;
    }
  }

  // ----- everything that is ever delivered

  /** What an action may deliver after the history h: a frame end the calls of the matches `ms` between two marks. */
  ghost predicate Owed(h: seq<Action>, a: Action, out: seq<Output>, ms: seq<Match>) {
    match a
    case Broadcast(Connected) => out == [OnConnected]
    case Disconnect => out == [OnDisconnected]
    case Broadcast(ResetDone) => out == [OnReset]
    case Broadcast(Message(text)) => out == [OnMessage(text)]
    case Broadcast(FrameEnd) =>
      && |out| >= 2 && out[0] == OnFrameStart && out[|out| - 1] == OnFrameEnd
      && CallsMatches(h, out[1..|out| - 1], ms)
    case _ => out == []
  }

  lemma DeliveredOwed(h: seq<Action>, a: Action) returns (ms: seq<Match>)
    ensures Owed(h, a, Delivered(h, a), ms)
  {
    ms := [];
    if a == Broadcast(FrameEnd) {
      ms := FrameCallsExact(h);
      var calls := Join(RegisteredSince(h), ValuesSince(h), BindingsOf(h), Destroyed(h));
      var out := [OnFrameStart] + calls + [OnFrameEnd];
      assert out[1..|out| - 1] == calls;
    }
  }

  /** Action i delivers what lies between `ends[i]` and `ends[i + 1]`: what it owes after the actions before it. */
  ghost predicate Piece(h: seq<Action>, out: seq<Output>, ends: seq<nat>, mss: seq<seq<Match>>, i: nat)
    requires |ends| == |h| + 1 && |mss| == |h|
  {
    i < |h| ==> ends[i] <= ends[i + 1] <= |out| && Owed(h[..i], h[i], out[ends[i]..ends[i + 1]], mss[i])
  }

  /** All that is delivered falls into one piece for each action of the history, in order. */
  ghost predicate Pieces(h: seq<Action>, out: seq<Output>, ends: seq<nat>, mss: seq<seq<Match>>) {
    && |ends| == |h| + 1 && |mss| == |h| && ends[0] == 0 && ends[|h|] == |out|
    && forall i: nat :: Piece(h, out, ends, mss, i)
  }

  lemma PiecesSnoc(h: seq<Action>, out: seq<Output>, ends: seq<nat>, mss: seq<seq<Match>>, a: Action, more: seq<Output>,
                   ms: seq<Match>)
    requires Pieces(h, out, ends, mss) && Owed(h, a, more, ms)
    ensures Pieces(h + [a], out + more, ends + [|out| + |more|], mss + [ms])
  {
    var h', out', ends', mss' := h + [a], out + more, ends + [|out| + |more|], mss + [ms];
    forall i: nat ensures Piece(h', out', ends', mss', i) {
      if i < |h| {
        assert Piece(h, out, ends, mss, i);
        assert h'[..i] == h[..i] && out'[ends[i]..ends[i + 1]] == out[ends[i]..ends[i + 1]];
      } else if i == |h| {
        assert h'[..i] == h && out'[|out|..|out'|] == more;
      }
    }
  }

  /** Everything ever delivered, from the first action to the last: nothing is delivered that is not owed, nothing owed
      is left out, and all is in the order of the actions. */
  lemma {:induction false} EveryDelivery(h: seq<Action>) returns (ends: seq<nat>, mss: seq<seq<Match>>)
    ensures Pieces(h, AllDelivered(h), ends, mss)
  {
    ends, mss := [0], [];
    if h != [] {
      var prefix, a := h[..|h| - 1], h[|h| - 1];
      ends, mss := EveryDelivery(prefix);
      var ms := DeliveredOwed(prefix, a);
      PiecesSnoc(prefix, AllDelivered(prefix), ends, mss, a, Delivered(prefix, a), ms);
      ends, mss := ends + [|AllDelivered(h)|], mss + [ms];
      assert prefix + [a] == h;
    }
  }
}
