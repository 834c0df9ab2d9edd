/** The automaton of the Link Control Protocol (section 4.1 of RFC 1661) on the generic engine. */
module LcpFsmModule {
  import opened Fsm

  datatype State = Initial | Starting | Closed | Stopped | Closing | Stopping | ReqSent | AckRcvd | AckSent | Opened

  datatype Event =
    | Up | Down | Open | Close | TimeOut1 | TimeOut2
    | RcvConfReqOk | RcvConfReqBad | RcvConfAck | RcvConfNak
    | RcvTermReq | RcvTermAck | RcvUnknown | RcvCodeRej1 | RcvCodeRej2 | RcvEchoReq

  const STATES: seq<State> := [Initial, Starting, Closed, Stopped, Closing, Stopping, ReqSent, AckRcvd, AckSent, Opened]

  const EVENTS: seq<Event> := [Up, Down, Open, Close, TimeOut1, TimeOut2, RcvConfReqOk, RcvConfReqBad, RcvConfAck, RcvConfNak,
    RcvTermReq, RcvTermAck, RcvUnknown, RcvCodeRej1, RcvCodeRej2, RcvEchoReq]

  /** A transition without and one with a callback. */
  function To(s: State): Entry<State> { Move(s, false) }
  function Act(s: State): Entry<State> { Move(s, true) }

  /** The row of the transition table for an event. */
  function Row(e: Event): (row: seq<Entry<State>>)
    ensures |row| == 10
  {
    var no := Forbidden;
    match e
    case Up            => [To(Closed), Act(ReqSent), no, no, no, no, no, no, no, no]
    case Down          => [no, no, Act(Initial), To(Starting), To(Initial), To(Starting), To(Starting), To(Starting), To(Starting), Act(Starting)]
    case Open          => [Act(Starting), To(Starting), Act(ReqSent), To(Stopped), To(Stopping), To(Stopping), To(ReqSent), To(AckRcvd), To(AckSent), To(Opened)]
    case Close         => [To(Initial), Act(Initial), To(Closed), To(Closed), To(Closing), To(Closing), Act(Closing), Act(Closing), Act(Closing), Act(Closing)]
    case TimeOut1      => [no, no, no, no, Act(Closing), Act(Stopping), Act(ReqSent), Act(ReqSent), Act(AckSent), no]
    case TimeOut2      => [no, no, no, no, Act(Closed), Act(Stopped), Act(Stopped), Act(Stopped), Act(Stopped), no]
    case RcvConfReqOk  => [no, no, Act(Closed), Act(AckSent), To(Closing), To(Stopping), Act(AckSent), Act(Opened), Act(AckSent), Act(AckSent)]
    case RcvConfReqBad => [no, no, Act(Closed), Act(ReqSent), To(Closing), To(Stopping), Act(ReqSent), Act(AckRcvd), Act(ReqSent), Act(ReqSent)]
    case RcvConfAck    => [no, no, Act(Closed), Act(Stopped), To(Closing), To(Stopping), Act(AckRcvd), Act(ReqSent), Act(Opened), Act(ReqSent)]
    case RcvConfNak    => [no, no, Act(Closed), Act(Stopped), To(Closing), To(Stopping), Act(ReqSent), Act(ReqSent), Act(AckSent), Act(ReqSent)]
    case RcvTermReq    => [no, no, Act(Closed), Act(Stopped), Act(Closing), Act(Stopping), Act(ReqSent), Act(ReqSent), Act(ReqSent), Act(Stopping)]
    case RcvTermAck    => [no, no, To(Closed), To(Stopped), Act(Closed), Act(Stopped), To(ReqSent), To(ReqSent), To(AckSent), Act(ReqSent)]
    case RcvUnknown    => [no, no, Act(Closed), Act(Stopped), Act(Closing), Act(Stopping), Act(ReqSent), Act(AckRcvd), Act(AckSent), Act(Opened)]
    case RcvCodeRej1   => [no, no, To(Closed), To(Stopped), To(Closing), To(Stopping), To(ReqSent), To(ReqSent), To(AckSent), To(Opened)]
    case RcvCodeRej2   => [no, no, Act(Closed), Act(Stopped), Act(Closed), Act(Stopped), Act(Stopped), Act(Stopped), Act(Stopped), Act(Stopping)]
    case RcvEchoReq    => [no, no, To(Closed), To(Stopped), To(Closing), To(Stopping), To(ReqSent), To(AckRcvd), To(AckSent), Act(Opened)]
  }

  const LCP: Table<State, Event> := Table(STATES, EVENTS, [Row(Up), Row(Down), Row(Open), Row(Close), Row(TimeOut1), Row(TimeOut2),
    Row(RcvConfReqOk), Row(RcvConfReqBad), Row(RcvConfAck), Row(RcvConfNak), Row(RcvTermReq), Row(RcvTermAck), Row(RcvUnknown),
    Row(RcvCodeRej1), Row(RcvCodeRej2), Row(RcvEchoReq)])

  lemma RowAt(i: nat)
    requires i < 16
    ensures LCP.rows[i] == Row(EVENTS[i])
  {
    hide Row;
  }

  function Number(s: State): (n: nat)
    ensures n < 10
  {
    match s
    case Initial => 0 case Starting => 1 case Closed => 2 case Stopped => 3 case Closing => 4
    case Stopping => 5 case ReqSent => 6 case AckRcvd => 7 case AckSent => 8 case Opened => 9
  }

  function EventNumber(e: Event): (n: nat)
    ensures n < 16
  {
    match e
    case Up => 0 case Down => 1 case Open => 2 case Close => 3 case TimeOut1 => 4 case TimeOut2 => 5
    case RcvConfReqOk => 6 case RcvConfReqBad => 7 case RcvConfAck => 8 case RcvConfNak => 9 case RcvTermReq => 10
    case RcvTermAck => 11 case RcvUnknown => 12 case RcvCodeRej1 => 13 case RcvCodeRej2 => 14 case RcvEchoReq => 15
  }

  lemma StateAt(s: State)
    ensures STATES[Number(s)] == s && s in STATES
  {
    assert STATES[Number(s)] == s;
  }

  lemma EventAt(e: Event)
    ensures EVENTS[EventNumber(e)] == e && e in EVENTS
  {
    assert EVENTS[EventNumber(e)] == e;
  }

  lemma NumberAt(i: nat)
    requires i < 10
    ensures Number(STATES[i]) == i
  {
  }

  lemma EventNumberAt(i: nat)
    requires i < 16
    ensures EventNumber(EVENTS[i]) == i
  {
  }

  lemma RowStates(e: Event, c: nat)
    requires c < 10
    ensures Row(e)[c].Move? ==> Row(e)[c].next in STATES
  {
    hide Row;
    if Row(e)[c].Move? { StateAt(Row(e)[c].next); }
  }

  lemma LcpValid()
    ensures LCP.Valid()
  {
    assert |STATES| == 10 && |EVENTS| == 16;
    forall i, j | 0 <= i < j < |EVENTS| ensures EVENTS[i] != EVENTS[j] {
      EventNumberAt(i);
      EventNumberAt(j);
    }
    hide Row;
    forall r: nat | r < 16 ensures LCP.rows[r] == Row(EVENTS[r]) { RowAt(r); }
    forall r: nat, c: nat | r < 16 && c < 10 && LCP.rows[r][c].Move? ensures LCP.rows[r][c].next in STATES {
      RowStates(EVENTS[r], c);
    }
  }

  /** The engine finds the row of the event and the column of the state. */
  lemma LookupIs(s: State, e: Event)
    ensures LCP.Valid() && s in LCP.states && Lookup(LCP, s, e) == Row(e)[Number(s)]
  {
    LcpValid();
    StateAt(s);
    EventAt(e);
    hide Row, Number, EventNumber;
    RowAt(IndexOf(EVENTS, e));
    NumberAt(IndexOf(STATES, s));
    EventNumberAt(IndexOf(EVENTS, e));
  }

  lemma NextIs(s: State, e: Event)
    ensures LCP.Valid() && s in LCP.states
    ensures NextState(LCP, s, e) == if Row(e)[Number(s)].Move? then Row(e)[Number(s)].next else s
    ensures Lookup(LCP, s, e).Forbidden? <==> !Row(e)[Number(s)].Move?
  {
    LookupIs(s, e);
    RowsTo(s, e);
    hide Lookup, Row, Number;
  }

  // ---------------------------------------------------------------- runs

  /** One accepted event and what callbacks do while it is processed. */
  datatype Input = Input(event: Event, reactions: seq<Reaction<Event>>)

  datatype Mark = Handled(event: Event) | WasReset

  datatype Step = Step(from: State, mark: Mark, to: State)

  /** The steps of processing allowed events. */
  ghost function Steps(s: State, log: seq<Event>): (steps: seq<Step>)
    ensures |steps| == |log|
    decreases |log|
  {
    if log == [] then []
    else
      LookupIs(s, log[0]);
      var next := NextState(LCP, s, log[0]);
      [Step(s, Handled(log[0]), next)] + Steps(next, log[1..])
  }

  /** Where a run of inputs ends, and the steps it makes. */
  datatype Run = Run(state: State, steps: seq<Step>)

  /** The events of a log that made a transition: all but a forbidden last one. The callback of a transition
      that throws finds the new state entered. */
  ghost function Entered(s: State, log: seq<Event>): (handled: seq<Event>)
    requires LCP.Valid() && s in LCP.states && log != []
  {
    if Allowed(LCP, s, log) then log else log[..|log| - 1]
  }

  ghost function Accepted(s: State, input: Input): (r: Run) {
    LookupIs(s, input.event);
    var h := Drain(LCP, s, [input.event], input.reactions);
    if h.Done? then Run(h.state, Steps(s, h.log))
    else
      DrainFolds(LCP, s, [input.event], input.reactions);
      var handled := Entered(s, h.log);
      Run(Initial, Steps(s, handled) + [Step(After(LCP, s, handled), WasReset, Initial)])
  }

  ghost function RunOf(inputs: seq<Input>): (r: Run)
    decreases |inputs|
  {
    if inputs == [] then Run(Initial, [])
    else
      var before := RunOf(inputs[..|inputs| - 1]);
      var last := Accepted(before.state, inputs[|inputs| - 1]);
      Run(last.state, before.steps + last.steps)
  }

  /** A step is a move of the table, or a reset. */
  predicate Legal(x: Step) {
    match x.mark
    case Handled(e) => Row(e)[Number(x.from)].Move? && Row(e)[Number(x.from)].next == x.to
    case WasReset => x.to == Initial
  }

  predicate Path(steps: seq<Step>, from: State, to: State)
    decreases |steps|
  {
    if steps == [] then from == to
    else steps[0].from == from && Legal(steps[0]) && Path(steps[1..], steps[0].to, to)
  }

  lemma {:induction false} PathConcat(a: seq<Step>, b: seq<Step>, from: State, mid: State, to: State)
    requires Path(a, from, mid) && Path(b, mid, to)
    ensures Path(a + b, from, to)
    decreases |a|
  {
    hide Legal;
    if a == [] {
      assert a + b == b;
    } else {
      PathConcat(a[1..], b, a[0].to, mid, to);
      assert (a + b)[1..] == a[1..] + b;
    }
  }

  lemma {:induction false} PathSplit(steps: seq<Step>, from: State, to: State, k: nat)
    requires Path(steps, from, to) && k < |steps|
    ensures Legal(steps[k]) && Path(steps[..k], from, steps[k].from) && Path(steps[k + 1..], steps[k].to, to)
    decreases |steps|
  {
    hide Legal;
    if k > 0 {
      PathSplit(steps[1..], steps[0].to, to, k - 1);
      assert steps[1..][..k - 1] == steps[..k][1..];
      assert steps[1..][k..] == steps[k + 1..];
    }
  }

  lemma {:induction false} StepsArePath(s: State, log: seq<Event>)
    requires LCP.Valid() && s in LCP.states && Allowed(LCP, s, log)
    ensures Path(Steps(s, log), s, After(LCP, s, log))
    decreases |log|
  {
    hide Lookup, Row, Number;
    if log != [] {
      NextIs(s, log[0]);
      RowsTo(s, log[0]);
      var next := NextState(LCP, s, log[0]);
      StateAt(next);
      StepsArePath(next, log[1..]);
    }
  }

  lemma RowsTo(s: State, e: Event)
    ensures !Row(e)[Number(s)].Ignored?
  {
  }

  lemma AcceptedIsPath(s: State, input: Input)
    ensures Path(Accepted(s, input).steps, s, Accepted(s, input).state)
  {
    LookupIs(s, input.event);
    var h := Drain(LCP, s, [input.event], input.reactions);
    hide *;
    DrainFolds(LCP, s, [input.event], input.reactions);
    AcceptedIs(s, input, h);
    if h.Done? {
      StepsArePath(s, h.log);
    } else {
      ResetIsPath(s, Entered(s, h.log));
    }
  }

  lemma AcceptedIs(s: State, input: Input, h: Halt<State, Event>)
    requires LCP.Valid() && s in LCP.states && h == Drain(LCP, s, [input.event], input.reactions)
    requires Folds(LCP, s, [input.event], input.reactions, h)
    ensures h.Done? ==> Accepted(s, input) == Run(After(LCP, s, h.log), Steps(s, h.log)) && Allowed(LCP, s, h.log)
    ensures h.Thrown? ==> h.log != [] && Allowed(LCP, s, Entered(s, h.log))
    ensures h.Thrown? ==>
      Accepted(s, input) == Run(Initial, Steps(s, Entered(s, h.log)) + [Step(After(LCP, s, Entered(s, h.log)), WasReset, Initial)])
  {
    hide Drain, Row, Number, After, Allowed, Steps, Posted;
  }

  lemma ResetIsPath(s: State, before: seq<Event>)
    requires LCP.Valid() && s in LCP.states && Allowed(LCP, s, before)
    ensures Path(Steps(s, before) + [Step(After(LCP, s, before), WasReset, Initial)], s, Initial)
  {
    hide *;
    var last := Step(After(LCP, s, before), WasReset, Initial);
    ResetIsLegal(last);
    LastStep(last);
    StepsArePath(s, before);
    PathConcat(Steps(s, before), [last], s, After(LCP, s, before), Initial);
  }

  lemma ResetIsLegal(x: Step)
    requires x.mark == WasReset && x.to == Initial
    ensures Legal(x)
  {
  }

  lemma LastStep(x: Step)
    requires Legal(x)
    ensures Path([x], x.from, x.to)
  {
    hide Legal;
  }

  lemma {:induction false} RunIsPath(inputs: seq<Input>)
    ensures Path(RunOf(inputs).steps, Initial, RunOf(inputs).state)
    decreases |inputs|
  {
    hide Accepted, Path;
    if inputs == [] {
      EmptyPath();
    } else {
      var w := |inputs| - 1;
      RunIsPath(inputs[..w]);
      var before := RunOf(inputs[..w]);
      AcceptedIsPath(before.state, inputs[w]);
      PathConcat(before.steps, Accepted(before.state, inputs[w]).steps, Initial, before.state, RunOf(inputs).state);
    }
  }

  lemma EmptyPath()
    ensures Path([], Initial, Initial)
  {
  }

  // ---------------------------------------------------------------- what the state remembers

  /** Whether the lower layer came up last, since the last reset. */
  function LinkUp(steps: seq<Step>): bool
    decreases |steps|
  {
    if steps == [] then false
    else
      match steps[|steps| - 1].mark
      case WasReset => false
      case Handled(e) => if e == Up then true else if e == Down then false else LinkUp(steps[..|steps| - 1])
  }

  /** Whether the last administrative request, since the last reset, was Open. */
  function OpenRequested(steps: seq<Step>): bool
    decreases |steps|
  {
    if steps == [] then false
    else
      match steps[|steps| - 1].mark
      case WasReset => false
      case Handled(e) => if e == Open then true else if e == Close then false else OpenRequested(steps[..|steps| - 1])
  }

  predicate UpState(s: State) { s != Initial && s != Starting }

  predicate OpenState(s: State) { s != Initial && s != Closed && s != Closing }

  lemma MoveKeeps(x: Step)
    requires Legal(x) && x.mark.Handled?
    ensures x.mark.event == Up ==> UpState(x.to)
    ensures x.mark.event == Down ==> !UpState(x.to)
    ensures x.mark.event != Up && x.mark.event != Down ==> UpState(x.to) == UpState(x.from)
    ensures x.mark.event == Open ==> OpenState(x.to)
    ensures x.mark.event == Close ==> !OpenState(x.to)
    ensures x.mark.event != Open && x.mark.event != Close ==> OpenState(x.to) == OpenState(x.from)
  {
  }

  lemma {:induction false} PathRemembers(steps: seq<Step>, to: State)
    requires Path(steps, Initial, to)
    ensures LinkUp(steps) == UpState(to) && OpenRequested(steps) == OpenState(to)
    decreases |steps|
  {
    hide Legal, UpState, OpenState;
    if steps == [] {
      assert !UpState(Initial) && !OpenState(Initial) by { InitialState(); }
    } else {
      var w := |steps| - 1;
      PathSplit(steps, Initial, to, w);
      assert steps[w + 1..] == [] && steps[w].to == to;
      PathRemembers(steps[..w], steps[w].from);
      if steps[w].mark.Handled? { MoveKeeps(steps[w]); } else { ResetState(steps[w]); }
    }
  }

  lemma InitialState()
    ensures !UpState(Initial) && !OpenState(Initial)
  {
  }

  lemma ResetState(x: Step)
    requires Legal(x) && x.mark.WasReset?
    ensures !UpState(x.to) && !OpenState(x.to)
  {
  }

  /** After every run the state alone tells whether the lower layer is up and whether Open was requested last. */
  lemma HistoryInState(inputs: seq<Input>)
    ensures var r := RunOf(inputs);
      LinkUp(r.steps) == UpState(r.state) && OpenRequested(r.steps) == OpenState(r.state)
  {
    hide *;
    RunIsPath(inputs);
    PathRemembers(RunOf(inputs).steps, RunOf(inputs).state);
  }

  // ---------------------------------------------------------------- the handshake

  predicate Waiting(s: State) { s == AckRcvd || s == AckSent }

  lemma EntersOpened(x: Step)
    requires Legal(x) && x.to == Opened && x.from != Opened
    ensures (x.from == AckRcvd && x.mark == Handled(RcvConfReqOk)) || (x.from == AckSent && x.mark == Handled(RcvConfAck))
  {
    match x.from
    case Initial => case Starting => case Closed => case Stopped => case Closing =>
    case Stopping => case ReqSent => case AckRcvd => case AckSent => case Opened =>
  }

  lemma EntersWaiting(x: Step)
    requires Legal(x) && Waiting(x.to)
    ensures if Waiting(x.from) then x.from == x.to else x.mark == Began(x.to)
  {
    if x.to == AckRcvd { EntersAckRcvd(x); } else { EntersAckSent(x); }
  }

  lemma EntersAckRcvd(x: Step)
    requires Legal(x) && x.to == AckRcvd
    ensures x.from == AckRcvd || (x.from == ReqSent && x.mark == Handled(RcvConfAck))
  {
  }

  lemma EntersAckSent(x: Step)
    requires Legal(x) && x.to == AckSent
    ensures x.from == AckSent || (!Waiting(x.from) && x.mark == Handled(RcvConfReqOk))
  {
  }

  /** What led into a waiting state. */
  function Began(s: State): Mark { if s == AckRcvd then Handled(RcvConfAck) else Handled(RcvConfReqOk) }

  /** The step that began the present stay in a waiting state. */
  lemma {:induction false} StayBegan(steps: seq<Step>, s: State) returns (j: nat)
    requires Path(steps, Initial, s) && Waiting(s)
    ensures j < |steps| && !Waiting(steps[j].from)
    ensures forall i :: j < i < |steps| ==> Waiting(steps[i].from)
    ensures steps[j].mark == Began(s)
    decreases |steps|
  {
    hide *;
    NotEmptyPath(steps, s);
    var w := |steps| - 1;
    LastOfPath(steps, s);
    EntersWaiting(steps[w]);
    j := w;
    if Waiting(steps[w].from) {
      j := StayBegan(steps[..w], s);
      forall i | j < i < |steps| ensures Waiting(steps[i].from) { if i < w { assert steps[..w][i] == steps[i]; } }
    }
  }

  lemma NotEmptyPath(steps: seq<Step>, s: State)
    requires Path(steps, Initial, s) && Waiting(s)
    ensures steps != []
  {
    hide Legal;
  }

  lemma LastOfPath(steps: seq<Step>, s: State)
    requires Path(steps, Initial, s) && steps != []
    ensures var w := |steps| - 1; Legal(steps[w]) && steps[w].to == s && Path(steps[..w], Initial, steps[w].from)
  {
    hide Legal;
    PathSplit(steps, Initial, s, |steps| - 1);
    assert steps[|steps|..] == [];
  }

  /** Every entry into Opened is preceded, since the machine was last outside Ack-Rcvd and Ack-Sent, by both
      a good Configure-Request and a Configure-Ack. */
  lemma Handshake(inputs: seq<Input>, k: nat) returns (j: nat)
    requires k < |RunOf(inputs).steps|
    requires RunOf(inputs).steps[k].to == Opened && RunOf(inputs).steps[k].from != Opened
    ensures var steps := RunOf(inputs).steps;
      && j < k && !Waiting(steps[j].from) && (forall i :: j < i <= k ==> Waiting(steps[i].from))
      && {steps[j].mark, steps[k].mark} == {Handled(RcvConfReqOk), Handled(RcvConfAck)}
  {
    var steps := RunOf(inputs).steps;
    RunIsPath(inputs);
    hide Legal, Path, RunOf;
    PathSplit(steps, Initial, RunOf(inputs).state, k);
    EntersOpened(steps[k]);
    j := StayBegan(steps[..k], steps[k].from);
    assert forall i :: 0 <= i < k ==> steps[..k][i] == steps[i];
  }

  // ---------------------------------------------------------------- what the events mean

  datatype Phase = Quiet | Negotiating | Terminating

  /** What the peers know of a link: whether the lower layer is up, whether Open was asked for last, what goes on,
      and while negotiating whether the peer's latest Configure-Request was good and whether our own one has been
      acknowledged. */
  datatype Facts = Facts(up: bool, open: bool, phase: Phase, peerGood: bool, ownAcked: bool) {

    function At(phase: Phase): Facts { Facts(up, open, phase, false, false) }

    /** Both requests were agreed on. */
    predicate Agreed() { phase == Negotiating && peerGood && ownAcked }

    /** What is agreed on ends when it is negotiated again. */
    function Renewed(): Facts { if Agreed() then At(Negotiating) else this }

    /** A listening end takes part when the peer negotiates. */
    function Joined(): Facts { if phase == Quiet && open then At(Negotiating) else Renewed() }

    /** Which events may come: the link goes up and down in turn, packets come while it is up, and timers run
        while an answer is due. */
    predicate Allows(e: Event) {
      match e
      case Up => !up
      case Open => true
      case Close => true
      case TimeOut1 => phase == Terminating || (phase == Negotiating && !Agreed())
      case TimeOut2 => phase == Terminating || (phase == Negotiating && !Agreed())
      case _ => up
    }

    function Learn(e: Event): Facts {
      match e
      case Up => Facts(true, open, if open then Negotiating else Quiet, false, false)
      case Down => Facts(false, open, Quiet, false, false)
      case Open =>
        if up && !open && phase == Quiet then Facts(up, true, Negotiating, false, false) else this.(open := true)
      case Close =>
        if phase == Negotiating then Facts(up, false, Terminating, false, false) else this.(open := false)
      case TimeOut1 => this.(ownAcked := false)
      case TimeOut2 => At(Quiet)
      case RcvConfReqOk => var f := Joined(); f.(peerGood := f.phase == Negotiating)
      case RcvConfReqBad => Joined().(peerGood := false)
      case RcvConfAck =>
        var f := Renewed();
        f.(ownAcked := phase == Negotiating && !ownAcked)
      case RcvConfNak => Renewed().(ownAcked := false)
      case RcvTermAck => if phase == Terminating then At(Quiet) else Renewed().(ownAcked := false)
      case RcvTermReq => if Agreed() then At(Terminating) else this.(peerGood := false, ownAcked := false)
      case RcvCodeRej1 => if Agreed() then this else this.(ownAcked := false)
      case RcvCodeRej2 => if Agreed() then At(Terminating) else At(Quiet)
      case RcvUnknown => this
      case RcvEchoReq => this
    }
  }

  /** What a state says. */
  function FactsOf(s: State): Facts {
    match s
    case Initial => Facts(false, false, Quiet, false, false)
    case Starting => Facts(false, true, Quiet, false, false)
    case Closed => Facts(true, false, Quiet, false, false)
    case Stopped => Facts(true, true, Quiet, false, false)
    case Closing => Facts(true, false, Terminating, false, false)
    case Stopping => Facts(true, true, Terminating, false, false)
    case ReqSent => Facts(true, true, Negotiating, false, false)
    case AckRcvd => Facts(true, true, Negotiating, false, true)
    case AckSent => Facts(true, true, Negotiating, true, false)
    case Opened => Facts(true, true, Negotiating, true, true)
  }

  /** Every entry of the table: allowed exactly when the facts allow the event, and leading where they lead. */
  lemma TableIs(s: State, e: Event)
    ensures Row(e)[Number(s)].Move? <==> FactsOf(s).Allows(e)
    ensures Row(e)[Number(s)].Move? ==> FactsOf(Row(e)[Number(s)].next) == FactsOf(s).Learn(e)
  {
    TableAllows(s, e);
    TableLeads(s, e);
    hide Row, Number, FactsOf;
  }

  lemma TableAllows(s: State, e: Event)
    ensures Row(e)[Number(s)].Move? <==> FactsOf(s).Allows(e)
  {
    match s
    case Initial => case Starting => case Closed => case Stopped => case Closing =>
    case Stopping => case ReqSent => case AckRcvd => case AckSent => case Opened =>
  }

  lemma TableLeads(s: State, e: Event)
    ensures Row(e)[Number(s)].Move? ==> FactsOf(Row(e)[Number(s)].next) == FactsOf(s).Learn(e)
  {
    hide *;
    match e
    case Up => LinkLeads(s, e); case Down => LinkLeads(s, e); case Open => LinkLeads(s, e); case Close => LinkLeads(s, e);
    case TimeOut1 => TimersLead(s, e); case TimeOut2 => TimersLead(s, e);
    case RcvConfReqOk => RequestsLead(s, e); case RcvConfReqBad => RequestsLead(s, e);
    case RcvConfAck => AnswersLead(s, e); case RcvConfNak => AnswersLead(s, e);
    case RcvTermReq => AnswersLead(s, e); case RcvTermAck => AnswersLead(s, e);
    case RcvUnknown => OthersLead(s, e); case RcvEchoReq => OthersLead(s, e);
    case RcvCodeRej1 => OthersLead(s, e); case RcvCodeRej2 => OthersLead(s, e);
  }

  lemma LinkLeads(s: State, e: Event)
    requires e == Up || e == Down || e == Open || e == Close
    ensures Row(e)[Number(s)].Move? ==> FactsOf(Row(e)[Number(s)].next) == FactsOf(s).Learn(e)
  {
    match s
    case Initial => case Starting => case Closed => case Stopped => case Closing =>
    case Stopping => case ReqSent => case AckRcvd => case AckSent => case Opened =>
  }

  lemma TimersLead(s: State, e: Event)
    requires e == TimeOut1 || e == TimeOut2
    ensures Row(e)[Number(s)].Move? ==> FactsOf(Row(e)[Number(s)].next) == FactsOf(s).Learn(e)
  {
    match s
    case Initial => case Starting => case Closed => case Stopped => case Closing =>
    case Stopping => case ReqSent => case AckRcvd => case AckSent => case Opened =>
  }

  lemma RequestsLead(s: State, e: Event)
    requires e == RcvConfReqOk || e == RcvConfReqBad
    ensures Row(e)[Number(s)].Move? ==> FactsOf(Row(e)[Number(s)].next) == FactsOf(s).Learn(e)
  {
    match s
    case Initial => case Starting => case Closed => case Stopped => case Closing =>
    case Stopping => case ReqSent => case AckRcvd => case AckSent => case Opened =>
  }

  lemma AnswersLead(s: State, e: Event)
    requires e == RcvConfAck || e == RcvConfNak || e == RcvTermReq || e == RcvTermAck
    ensures Row(e)[Number(s)].Move? ==> FactsOf(Row(e)[Number(s)].next) == FactsOf(s).Learn(e)
  {
    match s
    case Initial => case Starting => case Closed => case Stopped => case Closing =>
    case Stopping => case ReqSent => case AckRcvd => case AckSent => case Opened =>
  }

  lemma OthersLead(s: State, e: Event)
    requires e == RcvUnknown || e == RcvEchoReq || e == RcvCodeRej1 || e == RcvCodeRej2
    ensures Row(e)[Number(s)].Move? ==> FactsOf(Row(e)[Number(s)].next) == FactsOf(s).Learn(e)
  {
    match s
    case Initial => case Starting => case Closed => case Stopped => case Closing =>
    case Stopping => case ReqSent => case AckRcvd => case AckSent => case Opened =>
  }

  /** Going into and out of Opened always runs a callback. */
  lemma LayerCallbacks(s: State, e: Event)
    requires Row(e)[Number(s)].Move? && (s == Opened) != (Row(e)[Number(s)].next == Opened)
    ensures Row(e)[Number(s)].acts
  {
    match s
    case Initial => case Starting => case Closed => case Stopped => case Closing =>
    case Stopping => case ReqSent => case AckRcvd => case AckSent => case Opened =>
  }

  /** The facts after a history. */
  function Learned(steps: seq<Step>): Facts
    decreases |steps|
  {
    if steps == [] then FactsOf(Initial)
    else
      match steps[|steps| - 1].mark
      case WasReset => FactsOf(Initial)
      case Handled(e) => Learned(steps[..|steps| - 1]).Learn(e)
  }

  lemma {:induction false} PathLearns(steps: seq<Step>, to: State)
    requires Path(steps, Initial, to)
    ensures FactsOf(to) == Learned(steps)
    decreases |steps|
  {
    hide Legal, FactsOf, Facts.Learn, Path;
    if steps == [] {
      EndsThere(to);
    } else {
      var w := |steps| - 1;
      LastOfPath(steps, to);
      PathLearns(steps[..w], steps[w].from);
      StepLearns(steps[w]);
    }
  }

  lemma EndsThere(to: State)
    requires Path([], Initial, to)
    ensures to == Initial
  {
  }

  lemma StepLearns(x: Step)
    requires Legal(x)
    ensures FactsOf(x.to) == if x.mark.Handled? then FactsOf(x.from).Learn(x.mark.event) else FactsOf(Initial)
  {
    hide Row, Number, FactsOf, Facts.Learn, Facts.Allows;
    if x.mark.Handled? { TableIs(x.from, x.mark.event); }
  }

  /** After every run the state tells exactly what the events say: in particular, while negotiating, whether the
      peer's latest Configure-Request was good and whether our own was acknowledged; both exactly in Opened. */
  lemma StateLearned(inputs: seq<Input>)
    ensures var r := RunOf(inputs);
      FactsOf(r.state) == Learned(r.steps) && (r.state == Opened <==> Learned(r.steps).Agreed())
  {
    hide *;
    RunIsPath(inputs);
    PathLearns(RunOf(inputs).steps, RunOf(inputs).state);
    AgreedIsOpened(RunOf(inputs).state);
  }

  lemma AgreedIsOpened(s: State)
    ensures FactsOf(s).Agreed() <==> s == Opened
  {
  }

  /** Different states say different things. */
  lemma FactsTell(s: State, t: State)
    requires FactsOf(s) == FactsOf(t)
    ensures s == t
  {
    assert Number(s) == Number(t);
  }

  // ---------------------------------------------------------------- requests

  /** Where one event leads when callbacks do nothing: the table's move, or a reset. */
  function Reaches(s: State, e: Event): State {
    if Row(e)[Number(s)].Move? then Row(e)[Number(s)].next else Initial
  }

  lemma OneEvent(s: State, e: Event)
    ensures LCP.Valid() && s in LCP.states
    ensures var h := Drain(LCP, s, [e], []);
      && h.rest == [] && (h.Done? <==> Row(e)[Number(s)].Move?)
      && (if h.Done? then h.state else Initial) == Reaches(s, e)
  {
    LookupIs(s, e);
    RowsTo(s, e);
    hide Row, Number, Lookup, Drain;
    DrainSingle(LCP, s, e);
  }

  datatype Code = ConfigureRequest | TerminateRequest | OtherCode

  /** Where events accepted one after the other lead, up to the first exception. */
  datatype Sending = Sending(state: State, reactions: seq<Reaction<Event>>, ok: bool)

  function Sent(s: State, events: seq<Event>, reactions: seq<Reaction<Event>>): Sending
    decreases |events|
  {
    LcpValid();
    StateAt(s);
    if events == [] then Sending(s, reactions, true)
    else
      var h := Drain(LCP, s, [events[0]], reactions);
      if h.Done? then Sent(h.state, events[1..], h.rest) else Sending(Initial, h.rest, false)
  }

  lemma SentOne(s: State, e: Event, reactions: seq<Reaction<Event>>)
    ensures LCP.Valid() && s in LCP.states
    ensures var h := Drain(LCP, s, [e], reactions);
      Sent(s, [e], reactions) == Sending(if h.Done? then h.state else Initial, h.rest, h.Done?)
  {
    LcpValid();
    StateAt(s);
    hide Drain;
    assert [e][1..] == [];
  }

  /** One event sent is one input of a run. */
  lemma SentIsAccepted(s: State, e: Event, reactions: seq<Reaction<Event>>)
    ensures Sent(s, [e], reactions).state == Accepted(s, Input(e, reactions)).state
  {
    SentOne(s, e, reactions);
    hide Drain, Sent, Steps, Entered, After;
  }

  lemma RunMore(inputs: seq<Input>, input: Input)
    ensures RunOf(inputs + [input]).state == Accepted(RunOf(inputs).state, input).state
  {
    hide Accepted;
    assert (inputs + [input])[..|inputs|] == inputs;
  }

  lemma SentFirst(s: State, e: Event, events: seq<Event>, rest: seq<Event>, reactions: seq<Reaction<Event>>)
    requires events == [e] + rest
    ensures var first := Sent(s, [e], reactions);
      Sent(s, events, reactions) == if first.ok then Sent(first.state, rest, first.reactions) else first
  {
    SentOne(s, e, reactions);
    hide Drain;
    assert events[1..] == rest;
  }

  const STARTING: seq<Event> := [Open, Up]
  const STOPPING: seq<Event> := [RcvTermReq, Close, Down]

  /** What a Terminate-Request leads to. */
  function Terminated(s: State, reactions: seq<Reaction<Event>>): Sending {
    var down := Sent(s, STOPPING, reactions);
    if !down.ok then down
    else
      var r := Sent(down.state, STARTING, down.reactions);
      Sending(r.state, r.reactions, true)
  }

  lemma TerminatedIs(s: State, reactions: seq<Reaction<Event>>)
    ensures var down := Sent(s, STOPPING, reactions);
      var r := Sent(down.state, STARTING, down.reactions);
      Terminated(s, reactions) == if down.ok then Sending(r.state, r.reactions, true) else down
  {
    hide Sent;
  }

  lemma StartingIs(s: State, reactions: seq<Reaction<Event>>)
    ensures var a := Sent(s, [Open], reactions);
      Sent(s, STARTING, reactions) == if a.ok then Sent(a.state, [Up], a.reactions) else a
  {
    hide Sent;
    SentFirst(s, Open, STARTING, [Up], reactions);
  }

  lemma StoppingIs(s: State, reactions: seq<Reaction<Event>>)
    ensures var a := Sent(s, [RcvTermReq], reactions);
      var b := Sent(a.state, [Close], a.reactions);
      Sent(s, STOPPING, reactions) == if !a.ok then a else if !b.ok then b else Sent(b.state, [Down], b.reactions)
  {
    hide Sent;
    var a := Sent(s, [RcvTermReq], reactions);
    SentFirst(s, RcvTermReq, STOPPING, [Close, Down], reactions);
    SentFirst(a.state, Close, [Close, Down], [Down], a.reactions);
  }

  /** What a packet leads to. A good Configure-Request that comes at a bad time is only logged. */
  function Received(s: State, code: Code, good: bool, reactions: seq<Reaction<Event>>): Sending {
    match code
    case ConfigureRequest =>
      var r := Sent(s, [if good then RcvConfReqOk else RcvConfReqBad], reactions);
      Sending(r.state, r.reactions, good || r.ok)
    case TerminateRequest => Terminated(s, reactions)
    case OtherCode => Sending(s, reactions, true)
  }

  class LcpFsm {
    const machine: Machine<State, Event>
    /** The events accepted so far, each with the script that its callbacks found. */
    ghost var inputs: seq<Input>

    ghost predicate Idle()
      reads this, machine
    {
      machine.Valid() && machine.table == LCP && machine.initial == Initial && !machine.inProcess
      && machine.current == RunOf(inputs).state
    }

    constructor (reactions: seq<Reaction<Event>>)
      ensures Idle() && fresh(machine) && machine.current == Initial && machine.reactions == reactions && inputs == []
    {
      LcpValid();
      StateAt(Initial);
      machine := new Machine(LCP, Initial, reactions);
      inputs := [];
    }

    /** Accept one event; false when an exception leaves the machine. */
    method Accept(e: Event) returns (ok: bool)
      requires Idle()
      modifies machine, this
      ensures Idle() && inputs == old(inputs) + [Input(e, old(machine.reactions))]
      ensures Sending(machine.current, machine.reactions, ok) == Sent(old(machine.current), [e], old(machine.reactions))
    {
      SentOne(machine.current, e, machine.reactions);
      SentIsAccepted(machine.current, e, machine.reactions);
      hide Drain, Sent, Accepted, RunOf;
      RunMore(inputs, Input(e, machine.reactions));
      inputs := inputs + [Input(e, machine.reactions)];
      ok := machine.AcceptEvent(e);
    }

    /** Open, then bring the lower layer up; exceptions are caught and logged. */
    method Start()
      requires Idle()
      modifies machine, this
      ensures Idle() && old(inputs) <= inputs
      ensures var r := Sent(old(machine.current), STARTING, old(machine.reactions));
        machine.current == r.state && machine.reactions == r.reactions
    {
      hide *;
      StartingIs(machine.current, machine.reactions);
      var ok := Accept(Open);
      if ok { ok := Accept(Up); }
    }

    /** Handle a received packet; false when an exception reaches the caller. */
    method ReceiveRequest(code: Code, good: bool) returns (ok: bool)
      requires Idle()
      modifies machine, this
      ensures Idle() && old(inputs) <= inputs
      ensures var r := Received(old(machine.current), code, good, old(machine.reactions));
        machine.current == r.state && machine.reactions == r.reactions && ok == r.ok
    {
      hide Sent, Idle;
      match code {
        case ConfigureRequest =>
          ok := Accept(if good then RcvConfReqOk else RcvConfReqBad);
          ok := ok || good;
        case TerminateRequest =>
          ok := Terminate();
        case OtherCode =>
          ok := true;
      }
    }

    /** A Terminate-Request closes the link, drops it and starts over. */
    method Terminate() returns (ok: bool)
      requires Idle()
      modifies machine, this
      ensures Idle() && old(inputs) <= inputs
      ensures var r := Terminated(old(machine.current), old(machine.reactions));
        machine.current == r.state && machine.reactions == r.reactions && ok == r.ok
    {
      hide *;
      StoppingIs(machine.current, machine.reactions);
      TerminatedIs(machine.current, machine.reactions);
      ok := Accept(RcvTermReq);
      if !ok { return; }
      ok := Accept(Close);
      if !ok { return; }
      ok := Accept(Down);
      if !ok { return; }
      Start();
    }
  }

  /** With quiet callbacks starting reaches Req-Sent from a link that is down, and resets one that is up. */
  lemma QuietStart(s: State)
    ensures var r := Sent(s, STARTING, []);
      r.reactions == [] && r.ok == !UpState(s) && r.state == if UpState(s) then Initial else ReqSent
  {
    SentFirst(s, Open, STARTING, [Up], []);
    QuietOne(s, Open);
    QuietOne(Reaches(s, Open), Up);
    StartReaches(s);
    hide Row, Number, Sent, Reaches, UpState;
  }

  /** With quiet callbacks a Terminate-Request takes every link that is up to Req-Sent; one that is down is
      reset and the exception reaches the caller. */
  lemma QuietTerminate(s: State)
    ensures Terminated(s, []) == Sending(if UpState(s) then ReqSent else Initial, [], UpState(s))
  {
    hide *;
    var s1 := Reaches(s, RcvTermReq);
    StoppingIs(s, []);
    TerminatedIs(s, []);
    QuietOne(s, RcvTermReq);
    QuietOne(s1, Close);
    QuietOne(Reaches(s1, Close), Down);
    TerminateReaches(s);
    QuietStart(Initial);
    InitialState();
  }

  lemma QuietOne(s: State, e: Event)
    ensures Sent(s, [e], []) == Sending(Reaches(s, e), [], Row(e)[Number(s)].Move?)
  {
    SentOne(s, e, []);
    OneEvent(s, e);
    hide Row, Number, Sent, Reaches, Drain;
  }

  lemma StartReaches(s: State)
    ensures Row(Open)[Number(s)].Move? && Reaches(Reaches(s, Open), Up) == if UpState(s) then Initial else ReqSent
    ensures Row(Up)[Number(Reaches(s, Open))].Move? <==> !UpState(s)
  {
  }

  lemma TerminateReaches(s: State)
    ensures Row(RcvTermReq)[Number(s)].Move? <==> UpState(s)
    ensures var s1 := Reaches(s, RcvTermReq);
      var s2 := Reaches(s1, Close);
      UpState(s) ==> Row(Close)[Number(s1)].Move? && Row(Down)[Number(s2)].Move? && Reaches(s2, Down) == Initial && !UpState(Initial)
    ensures !UpState(s) ==> Reaches(s, RcvTermReq) == Initial
  {
  }

  lemma QuietTwo(s: State, e: Event, f: Event)
    requires Row(e)[Number(s)].Move?
    ensures Sent(s, [e, f], []) == Sent(Reaches(s, e), [f], [])
  {
    hide *;
    assert [e, f] == [e] + [f];
    SentFirst(s, e, [e, f], [f], []);
    QuietOne(s, e);
  }

  /** With quiet callbacks a good Configure-Request and an acknowledgement, in either order, open the link. */
  lemma QuietHandshake()
    ensures Sent(ReqSent, [RcvConfReqOk, RcvConfAck], []) == Sending(Opened, [], true)
    ensures Sent(ReqSent, [RcvConfAck, RcvConfReqOk], []) == Sending(Opened, [], true)
  {
    hide *;
    HandshakeMoves();
    QuietTwo(ReqSent, RcvConfReqOk, RcvConfAck);
    QuietTwo(ReqSent, RcvConfAck, RcvConfReqOk);
    QuietOne(AckSent, RcvConfAck);
    QuietOne(AckRcvd, RcvConfReqOk);
  }

  lemma HandshakeMoves()
    ensures Reaches(ReqSent, RcvConfReqOk) == AckSent && Row(RcvConfReqOk)[Number(ReqSent)].Move?
    ensures Reaches(ReqSent, RcvConfAck) == AckRcvd && Row(RcvConfAck)[Number(ReqSent)].Move?
    ensures Reaches(AckSent, RcvConfAck) == Opened && Row(RcvConfAck)[Number(AckSent)].Move?
    ensures Reaches(AckRcvd, RcvConfReqOk) == Opened && Row(RcvConfReqOk)[Number(AckRcvd)].Move?
  {
  }

  /** With quiet callbacks a Configure-Request tells a negotiating link whether the peer's request is good; one
      that comes at a bad time resets the machine, which only a bad one reports. */
  lemma QuietConfigure(s: State, good: bool)
    ensures var r := Received(s, ConfigureRequest, good, []);
      && r.reactions == [] && (r.ok <==> good || UpState(s))
      && (UpState(s) ==> FactsOf(r.state) == FactsOf(s).Learn(if good then RcvConfReqOk else RcvConfReqBad))
      && (FactsOf(s).phase == Negotiating ==> FactsOf(r.state).phase == Negotiating && FactsOf(r.state).peerGood == good)
      && (!UpState(s) ==> r.state == Initial)
  {
    var e := if good then RcvConfReqOk else RcvConfReqBad;
    QuietOne(s, e);
    TableIs(s, e);
    hide Row, Number, Sent;
  }
}
