/** The table-driven state machine engine: events are queued, callbacks may post further events, and an
    exception resets the machine. */
module Fsm {

  /** One entry of the transition table; acts says whether a callback is bound to the transition. */
  datatype Entry<S> = Move(next: S, acts: bool) | Forbidden | Ignored

  datatype Table<S, E> = Table(states: seq<S>, events: seq<E>, rows: seq<seq<Entry<S>>>) {

    /** What the checks on the description of a machine establish. */
    ghost predicate Valid() {
      && |rows| == |events|
      && (forall r :: 0 <= r < |rows| ==> |rows[r]| == |states| && forall c :: 0 <= c < |states| && rows[r][c].Move? ==> rows[r][c].next in states)
      && (forall i, j :: 0 <= i < j < |events| ==> events[i] != events[j])
    }
  }

  datatype Description<S, E> = Described(table: Table<S, E>) | StatesDiffer | DuplicateEvent | InvalidState

  /** Add the transitions of one event to a description. */
  function AddRow<S(==), E(==)>(t: Table<S, E>, event: E, row: seq<Entry<S>>): (d: Description<S, E>)
    requires t.Valid()
    ensures d.Described? ==> d.table.Valid() && d.table.events == t.events + [event] && d.table.rows == t.rows + [row]
    ensures d.Described? <==>
      |row| == |t.states| && event !in t.events && forall c :: 0 <= c < |row| && row[c].Move? ==> row[c].next in t.states
  {
    if |row| != |t.states| then StatesDiffer
    else if event in t.events then DuplicateEvent
    else if exists c :: 0 <= c < |row| && row[c].Move? && row[c].next !in t.states then InvalidState
    else Described(Table(t.states, t.events + [event], t.rows + [row]))
  }

  /** The first index of x, or the length when there is none. */
  function IndexOf<T(==)>(s: seq<T>, x: T): (i: nat)
    ensures i <= |s| && (i < |s| <==> x in s) && (i < |s| ==> s[i] == x)
    ensures forall j :: 0 <= j < i ==> s[j] != x
  {
    if s == [] then 0 else if s[0] == x then 0 else 1 + IndexOf(s[1..], x)
  }

  /** The entry for an event in a state; events outside the table are refused by exception. */
  function Lookup<S(==), E(==)>(t: Table<S, E>, state: S, event: E): Entry<S>
    requires t.Valid() && state in t.states
  {
    if event in t.events then t.rows[IndexOf(t.events, event)][IndexOf(t.states, state)] else Forbidden
  }

  /** What a callback does: post events, or throw. */
  datatype Reaction<E> = Posts(events: seq<E>) | Throws

  /** The end of processing: the last state, or an exception; with the events processed, in order, and the
      reactions not yet used. When an exception ends it, the last event is the one that caused it. */
  datatype Halt<S, E> = Done(state: S, log: seq<E>, rest: seq<Reaction<E>>) | Thrown(log: seq<E>, rest: seq<Reaction<E>>)

  function Logged<S, E>(e: E, h: Halt<S, E>): Halt<S, E> {
    match h
    case Done(state, log, rest) => Done(state, [e] + log, rest)
    case Thrown(log, rest) => Thrown([e] + log, rest)
  }

  /** Process the queue from its front; what callbacks post goes to its back. */
  function Drain<S(==), E(==)>(t: Table<S, E>, state: S, queue: seq<E>, reactions: seq<Reaction<E>>): (h: Halt<S, E>)
    requires t.Valid() && state in t.states
    ensures h.Done? ==> h.state in t.states
    decreases |reactions|, |queue|
  {
    if queue == [] then Done(state, [], reactions)
    else
      var e, rest := queue[0], queue[1..];
      match Lookup(t, state, e)
      case Forbidden => Thrown([e], reactions)
      case Ignored => Logged(e, Drain(t, state, rest, reactions))
      case Move(next, acts) =>
        EntryState(t, state, e);
        if !acts || reactions == [] then Logged(e, Drain(t, next, rest, reactions))
        else
          match reactions[0]
          case Throws => Thrown([e], reactions[1..])
          case Posts(more) => Logged(e, Drain(t, next, rest + more, reactions[1..]))
  }

  lemma EntryState<S, E>(t: Table<S, E>, state: S, event: E)
    requires t.Valid() && state in t.states
    ensures var x := Lookup(t, state, event); x.Move? ==> x.next in t.states
  {
  }

  predicate SameEnd<S(==), E(==)>(a: Halt<S, E>, b: Halt<S, E>) {
    a.Done? == b.Done? && a.rest == b.rest && (a.Done? ==> a.state == b.state)
  }

  /** Processing one event and then the rest. */
  lemma DrainNext<S, E>(t: Table<S, E>, state: S, queue: seq<E>, reactions: seq<Reaction<E>>)
    requires t.Valid() && state in t.states && queue != []
    ensures var entry := Lookup(t, state, queue[0]);
      var reacts := entry.Move? && entry.acts && reactions != [];
      var unused := if reacts then reactions[1..] else reactions;
      && (entry.Move? ==> entry.next in t.states)
      && Drain(t, state, queue, reactions)
         == (if entry.Forbidden? || (reacts && reactions[0].Throws?) then Thrown([queue[0]], unused)
             else Logged(queue[0], Drain(t, if entry.Move? then entry.next else state,
                    queue[1..] + (if reacts then reactions[0].events else []), unused)))
  {
    EntryState(t, state, queue[0]);
    hide Lookup;
    assert queue[1..] + [] == queue[1..];
  }

  /** One event whose callback does nothing. */
  lemma DrainSingle<S, E>(t: Table<S, E>, state: S, e: E)
    requires t.Valid() && state in t.states
    ensures var entry := Lookup(t, state, e);
      Drain(t, state, [e], []) == if entry.Forbidden? then Thrown([e], []) else Done(if entry.Move? then entry.next else state, [e], [])
  {
    hide Lookup;
    DrainNext(t, state, [e], []);
    assert [e][1..] + [] == [];
  }

  // ---------------------------------------------------------------- what a run computes

  ghost function NextState<S, E>(t: Table<S, E>, state: S, e: E): (next: S)
    requires t.Valid() && state in t.states
    ensures next in t.states
  {
    EntryState(t, state, e);
    var entry := Lookup(t, state, e);
    if entry.Move? then entry.next else state
  }

  /** The fold of the transition table over events. */
  ghost function After<S, E>(t: Table<S, E>, state: S, events: seq<E>): (last: S)
    requires t.Valid() && state in t.states
    ensures last in t.states
    decreases |events|
  {
    if events == [] then state else After(t, NextState(t, state, events[0]), events[1..])
  }

  /** No event of the sequence is refused in the state it finds. */
  ghost predicate Allowed<S, E>(t: Table<S, E>, state: S, events: seq<E>)
    requires t.Valid() && state in t.states
    decreases |events|
  {
    events != [] ==> !Lookup(t, state, events[0]).Forbidden? && Allowed(t, NextState(t, state, events[0]), events[1..])
  }

  /** The events that callbacks post, in order. */
  function Posted<E>(reactions: seq<Reaction<E>>): seq<E> {
    if reactions == [] then [] else (if reactions[0].Posts? then reactions[0].events else []) + Posted(reactions[1..])
  }

  /** h is the end of processing the queue and all that callbacks post, in order, with the fold's state. */
  ghost predicate Folds<S, E>(t: Table<S, E>, state: S, queue: seq<E>, reactions: seq<Reaction<E>>, h: Halt<S, E>)
    requires t.Valid() && state in t.states
  {
    && |h.rest| <= |reactions| && h.rest == reactions[|reactions| - |h.rest|..]
    && var accepted := queue + Posted(reactions[..|reactions| - |h.rest|]);
       && (h.Done? ==> h.log == accepted && Allowed(t, state, h.log) && h.state == After(t, state, h.log))
       && (h.Thrown? ==> h.log != [] && h.log <= accepted && Allowed(t, state, h.log[..|h.log| - 1]))
  }

  /** Every event, queued or posted, is processed in the order in which it was accepted, and the state is
      the fold of the table over them. */
  lemma {:induction false} DrainFolds<S, E>(t: Table<S, E>, state: S, queue: seq<E>, reactions: seq<Reaction<E>>)
    requires t.Valid() && state in t.states
    ensures Folds(t, state, queue, reactions, Drain(t, state, queue, reactions))
    decreases |reactions|, |queue|
  {
    if queue == [] {
      NothingFolds(t, state, reactions);
    } else {
      DrainNext(t, state, queue, reactions);
      hide Lookup, Drain, Folds, After, Posted, Allowed;
      var e, entry := queue[0], Lookup(t, state, queue[0]);
      var reacts := entry.Move? && entry.acts && reactions != [];
      if entry.Forbidden? || (reacts && reactions[0].Throws?) {
        ThrowFolds(t, state, queue, reactions, if reacts then 1 else 0);
      } else {
        var next, more := NextState(t, state, e), if reacts then reactions[0].events else [];
        var unused := if reacts then reactions[1..] else reactions;
        DrainFolds(t, next, queue[1..] + more, unused);
        StepFolds(t, state, queue, reactions, reacts, more, unused, Drain(t, next, queue[1..] + more, unused));
      }
    }
  }

  lemma NothingFolds<S, E>(t: Table<S, E>, state: S, reactions: seq<Reaction<E>>)
    requires t.Valid() && state in t.states
    ensures Folds(t, state, [], reactions, Drain(t, state, [], reactions))
  {
  }

  lemma ThrowFolds<S, E>(t: Table<S, E>, state: S, queue: seq<E>, reactions: seq<Reaction<E>>, n: nat)
    requires t.Valid() && state in t.states && queue != [] && n <= |reactions|
    ensures Folds(t, state, queue, reactions, Thrown([queue[0]], reactions[n..]))
  {
    hide Lookup, Posted;
  }

  lemma StepFolds<S, E>(t: Table<S, E>, state: S, queue: seq<E>, reactions: seq<Reaction<E>>, reacts: bool,
                        more: seq<E>, unused: seq<Reaction<E>>, h: Halt<S, E>)
    requires t.Valid() && state in t.states && queue != []
    requires reacts ==> reactions != [] && reactions[0].Posts? && more == reactions[0].events && unused == reactions[1..]
    requires !reacts ==> more == [] && unused == reactions
    requires Folds(t, NextState(t, state, queue[0]), queue[1..] + more, unused, h)
    requires !Lookup(t, state, queue[0]).Forbidden?
    ensures Folds(t, state, queue, reactions, Logged(queue[0], h))
  {
    hide Lookup, NextState, Allowed, After;
    var used := |reactions| - |h.rest|;
    var mine, later := reactions[..used], unused[..|unused| - |h.rest|];
    if reacts { assert mine[1..] == later; }
    FrontFirst(queue, more, Posted(later), Posted(mine));
    var l := Logged(queue[0], h);
    if h.Thrown? {
      assert l.log[..|l.log| - 1] == [queue[0]] + h.log[..|h.log| - 1];
      OneMore(t, state, queue[0], h.log[..|h.log| - 1]);
    } else {
      OneMore(t, state, queue[0], h.log);
    }
  }

  lemma OneMore<S, E>(t: Table<S, E>, state: S, e: E, events: seq<E>)
    requires t.Valid() && state in t.states && !Lookup(t, state, e).Forbidden?
    ensures After(t, state, [e] + events) == After(t, NextState(t, state, e), events)
    ensures Allowed(t, NextState(t, state, e), events) ==> Allowed(t, state, [e] + events)
  {
    hide Lookup, NextState;
    assert ([e] + events)[1..] == events;
  }

  lemma FrontFirst<E>(queue: seq<E>, more: seq<E>, later: seq<E>, posted: seq<E>)
    requires queue != [] && posted == more + later
    ensures [queue[0]] + ((queue[1..] + more) + later) == queue + posted
  {
  }

  // ---------------------------------------------------------------- how processing ends

  /** The number of callbacks that events lead to. */
  ghost function Callbacks<S, E>(t: Table<S, E>, state: S, events: seq<E>): nat
    requires t.Valid() && state in t.states
    decreases |events|
  {
    if events == [] then 0
    else
      var entry := Lookup(t, state, events[0]);
      (if entry.Move? && entry.acts then 1 else 0) + Callbacks(t, NextState(t, state, events[0]), events[1..])
  }

  /** The entry that the last event finds. */
  ghost function LastEntry<S, E>(t: Table<S, E>, state: S, events: seq<E>): Entry<S>
    requires t.Valid() && state in t.states && events != []
  {
    Lookup(t, After(t, state, events[..|events| - 1]), events[|events| - 1])
  }

  predicate AllPost<E>(reactions: seq<Reaction<E>>, n: nat)
    requires n <= |reactions|
  {
    forall i :: 0 <= i < n ==> reactions[i].Posts?
  }

  /** The entry refuses the event, or the last of the reactions used throws. */
  predicate Breaks<S, E>(entry: Entry<S>, reactions: seq<Reaction<E>>, used: nat)
    requires used <= |reactions|
  {
    || (entry.Forbidden? && AllPost(reactions, used))
    || (entry.Move? && entry.acts && used > 0 && reactions[used - 1].Throws? && AllPost(reactions, used - 1))
  }

  /** Every callback of the events processed used one reaction, while there were any, and processing ends early only
      when the last event is refused or its callback throws. */
  ghost predicate Ends<S, E>(t: Table<S, E>, state: S, reactions: seq<Reaction<E>>, h: Halt<S, E>)
    requires t.Valid() && state in t.states
  {
    && |h.rest| <= |reactions|
    && var used, called := |reactions| - |h.rest|, Callbacks(t, state, h.log);
       && used == (if called < |reactions| then called else |reactions|)
       && (h.Done? ==> AllPost(reactions, used))
       && (h.Thrown? ==> h.log != [] && Breaks(LastEntry(t, state, h.log), reactions, used))
  }

  lemma {:induction false} DrainEnds<S, E>(t: Table<S, E>, state: S, queue: seq<E>, reactions: seq<Reaction<E>>)
    requires t.Valid() && state in t.states
    ensures Ends(t, state, reactions, Drain(t, state, queue, reactions))
    decreases |reactions|, |queue|
  {
    hide *;
    if queue == [] {
      NothingEnds(t, state, reactions);
    } else {
      DrainNext(t, state, queue, reactions);
      var e, entry := queue[0], Lookup(t, state, queue[0]);
      var reacts := entry.Move? && entry.acts && reactions != [];
      if entry.Forbidden? || (reacts && reactions[0].Throws?) {
        ThrowEnds(t, state, e, reactions, if reacts then 1 else 0);
      } else {
        var next, more := NextState(t, state, e), if reacts then reactions[0].events else [];
        var unused := if reacts then reactions[1..] else reactions;
        NextIs(t, state, e);
        DrainEnds(t, next, queue[1..] + more, unused);
        StepEnds(t, state, e, reactions, reacts, unused, Drain(t, next, queue[1..] + more, unused));
      }
    }
  }

  lemma NextIs<S, E>(t: Table<S, E>, state: S, e: E)
    requires t.Valid() && state in t.states
    ensures var entry := Lookup(t, state, e); NextState(t, state, e) == if entry.Move? then entry.next else state
  {
    hide Lookup;
  }

  lemma NothingEnds<S, E>(t: Table<S, E>, state: S, reactions: seq<Reaction<E>>)
    requires t.Valid() && state in t.states
    ensures Ends(t, state, reactions, Drain(t, state, [], reactions))
  {
  }

  lemma ThrowEnds<S, E>(t: Table<S, E>, state: S, e: E, reactions: seq<Reaction<E>>, n: nat)
    requires t.Valid() && state in t.states && n <= |reactions|
    requires var entry := Lookup(t, state, e);
      if n == 0 then entry.Forbidden? else n == 1 && entry.Move? && entry.acts && reactions[0].Throws?
    ensures Ends(t, state, reactions, Thrown([e], reactions[n..]))
  {
    hide Lookup;
    assert [e][1..] == [] && [e][..0] == [];
    assert Callbacks(t, NextState(t, state, e), []) == 0;
  }

  lemma StepEnds<S, E>(t: Table<S, E>, state: S, e: E, reactions: seq<Reaction<E>>, reacts: bool,
                       unused: seq<Reaction<E>>, h: Halt<S, E>)
    requires t.Valid() && state in t.states
    requires var entry := Lookup(t, state, e); reacts == (entry.Move? && entry.acts && reactions != [])
    requires reacts ==> reactions[0].Posts? && unused == reactions[1..]
    requires !reacts ==> unused == reactions
    requires Ends(t, NextState(t, state, e), unused, h)
    ensures Ends(t, state, reactions, Logged(e, h))
  {
    hide Lookup, NextState, After;
    var l := Logged(e, h);
    assert l.log[1..] == h.log;
    if h.Thrown? { LaterEntry(t, state, e, h.log); }
    hide LastEntry, Callbacks;
    CallbacksFirst(t, state, e, h.log);
  }

  lemma CallbacksFirst<S, E>(t: Table<S, E>, state: S, e: E, events: seq<E>)
    requires t.Valid() && state in t.states
    ensures var entry := Lookup(t, state, e);
      Callbacks(t, state, [e] + events)
        == (if entry.Move? && entry.acts then 1 else 0) + Callbacks(t, NextState(t, state, e), events)
  {
    hide Lookup, NextState;
    assert ([e] + events)[1..] == events;
  }

  lemma LaterEntry<S, E>(t: Table<S, E>, state: S, e: E, events: seq<E>)
    requires t.Valid() && state in t.states && events != []
    ensures LastEntry(t, state, [e] + events) == LastEntry(t, NextState(t, state, e), events)
  {
    hide Lookup, NextState;
    var n := |events| - 1;
    assert ([e] + events)[..n + 1] == [e] + events[..n];
    assert ([e] + events[..n])[1..] == events[..n];
  }

  class Machine<S(==), E(==)> {
    const table: Table<S, E>
    const initial: S
    var current: S
    var currentIndex: nat
    var queue: seq<E>
    var inProcess: bool
    /** What the callbacks of the coming transitions do. */
    var reactions: seq<Reaction<E>>

    ghost predicate Valid()
      reads this
    {
      && table.Valid() && initial in table.states
      && current in table.states && currentIndex == IndexOf(table.states, current)
      && (!inProcess ==> queue == [])
    }

    constructor (table: Table<S, E>, initial: S, reactions: seq<Reaction<E>>)
      requires table.Valid() && initial in table.states
      ensures Valid() && this.table == table && this.initial == initial && this.reactions == reactions
      ensures current == initial && !inProcess
    {
      this.table, this.initial, this.reactions := table, initial, reactions;
      current, currentIndex, queue, inProcess := initial, IndexOf(table.states, initial), [], false;
    }

    method Reset()
      requires Valid()
      modifies this
      ensures Valid() && current == initial && queue == [] && !inProcess && reactions == old(reactions)
    {
      current := initial;
      currentIndex := IndexOf(table.states, current);
      inProcess := false;
      queue := [];
    }

    /** Accept an event: queue it, and unless called from a callback process the queue until it is empty. */
    method AcceptEvent(event: E) returns (ok: bool)
      requires Valid()
      modifies this
      ensures Valid()
      ensures old(inProcess) ==>
        && ok && queue == old(queue) + [event]
        && unchanged(`current) && unchanged(`currentIndex) && unchanged(`inProcess) && unchanged(`reactions)
      ensures !old(inProcess) ==>
        var h := Drain(table, old(current), [event], old(reactions));
        && !inProcess && queue == [] && reactions == h.rest
        && ok == h.Done? && current == if h.Done? then h.state else initial
      decreases if inProcess then 0 else 2, 0
    {
      queue := queue + [event];
      if inProcess { return true; }
      inProcess := true;
      ghost var h := Drain(table, current, queue, reactions);
      while queue != []
        invariant Valid() && inProcess && SameEnd(Drain(table, current, queue, reactions), h)
        decreases |reactions|, |queue|
      {
        hide Drain, Lookup;
        ok := ProcessFront();
        if !ok { return false; }
      }
      inProcess := false;
      return true;
    }

    /** Process the event at the front of the queue and remove it. */
    method ProcessFront() returns (ok: bool)
      requires Valid() && inProcess && queue != []
      modifies this
      ensures Valid()
      ensures var before := Drain(table, old(current), old(queue), old(reactions));
        if ok then inProcess && SameEnd(Drain(table, current, queue, reactions), before)
        else before.Thrown? && reactions == before.rest && current == initial && queue == [] && !inProcess
      ensures |reactions| < |old(reactions)| || (|reactions| == |old(reactions)| && |queue| < |old(queue)|) || !ok
      decreases 1, 1
    {
      hide Drain, Lookup;
      ghost var state, before, unused := current, queue, reactions;
      DrainNext(table, state, before, unused);
      ok := ProcessEvent(queue[0]);
      if ok {
        ghost var e := Lookup(table, state, before[0]);
        assert queue[1..] == before[1..] + (if e.Move? && e.acts && unused != [] then unused[0].events else []);
        queue := queue[1..];
      }
    }

    /** Make the transition for the event at the front of the queue and run its callback. */
    method ProcessEvent(event: E) returns (ok: bool)
      requires Valid() && inProcess && queue != [] && queue[0] == event
      modifies this
      ensures Valid()
      ensures var entry := Lookup(table, old(current), event);
        var reacts := entry.Move? && entry.acts && old(reactions) != [];
        && reactions == (if reacts then old(reactions)[1..] else old(reactions))
        && ok == !(entry.Forbidden? || (reacts && old(reactions)[0].Throws?))
        && (if ok then
              && inProcess && current == (if entry.Move? then entry.next else old(current))
              && queue == old(queue) + (if reacts then old(reactions)[0].events else [])
            else !inProcess && current == initial && queue == [])
      decreases 1, 0
    {
      EntryState(table, current, event);
      var eventIndex := IndexOf(table.events, event);
      if eventIndex == |table.events| {
        Reset();
        return false;
      }
      var entry := table.rows[eventIndex][currentIndex];
      match entry {
        case Forbidden =>
          Reset();
          return false;
        case Ignored =>
          return true;
        case Move(next, acts) =>
          current := next;
          currentIndex := IndexOf(table.states, current);
          if acts && reactions != [] {
            var reaction := reactions[0];
            reactions := reactions[1..];
            if reaction.Throws? {
              Reset();
              return false;
            }
            ghost var before := queue;
            for i := 0 to |reaction.events|
              invariant Valid() && inProcess && queue == before + reaction.events[..i]
              invariant current == next && reactions == old(reactions)[1..]
            {
              assert reaction.events[..i + 1] == reaction.events[..i] + [reaction.events[i]];
              var posted := AcceptEvent(reaction.events[i]);
            }
            assert reaction.events[..|reaction.events|] == reaction.events;
          }
          return true;
      }
    }
  }
}
