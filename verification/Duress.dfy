/**
  Duress mode (`boddos/safety/duress.py`) as the dead-man loop and the manual endpoints of
  `boddos/api/server.py` drive it.

  The loop polls, then triggers for the labels it was given one at a time; other requests are
  handled between those turns. A location is the caller's JSON value, kept as text.
*/
module Duress {
  import opened Wrappers
  import D = DeadMan

  type Location = Option<string>

  datatype Alarm = Alarm(ts: real, note: string, location: Location, alertsQueued: nat)

  datatype State = State(
    active: bool, since: Option<real>, lastNote: string, lastLocation: Location, history: seq<Alarm>)

  const CALM := State(false, None, "", None, [])

  function TriggerStep(s: State, note: string, location: Location, contacts: nat, now: real): State {
    State(true, Some(now), note, location, s.history + [Alarm(now, note, location, contacts)])
  }

  function ClearStep(s: State): State {
    s.(active := false, since := None)
  }

  class DuressManager {
    const contacts: nat
    var active: bool
    var since: Option<real>
    var lastNote: string
    var lastLocation: Location
    var history: seq<Alarm>

    ghost function Abs(): State
      reads this
    {
      State(active, since, lastNote, lastLocation, history)
    }

    constructor (contacts: nat)
      ensures this.contacts == contacts && Abs() == CALM
    {
      this.contacts := contacts;
      active, since, lastNote, lastLocation, history := false, None, "", None, [];
    }

    method Trigger(note: string, location: Location, now: real) returns (event: Alarm)
      modifies this
      ensures Abs() == TriggerStep(old(Abs()), note, location, contacts, now)
      ensures event == history[|history| - 1]
    {
      active, since := true, Some(now);
      lastNote, lastLocation := note, location;
      event := Alarm(now, note, location, contacts);
      history := history + [event];
    }

    method Clear()
      modifies this
      ensures Abs() == ClearStep(old(Abs()))
    {
      active, since := false, None;
    }
  }

  // ------------------------------------------------------------------ the composition

  /** Timer events include the loop's polls; `Fire` is the loop's next turn. */
  datatype Action =
    | Timer(e: D.Event)
    | Fire(now: real)
    | Manual(note: string, location: Location, now: real)
    | Clear

  /** The switch, the labels that `due` returned and the loop has not come to, and the duress state. */
  datatype Node = Node(sw: D.Switch, pending: seq<string>, duress: State)

  function Labels(cs: seq<D.CheckIn>): seq<string> {
    seq(|cs|, i requires 0 <= i < |cs| => cs[i].name)
  }

  /** The labels that a poll returns. */
  function PollOf(sw: D.Switch, now: real): seq<string> {
    Labels(D.DueAmong(sw.active, sw.order, now))
  }

  function MissedNote(name: string): string {
    "missed check-in: " + name
  }

  /** The loop polls again only when it has worked off the last poll. */
  predicate Happens(n: Node, a: Action) {
    match a
    case Timer(Polled(_)) => n.pending == []
    case Fire(_) => n.pending != []
    case _ => true
  }

  function Next(contacts: nat, n: Node, a: Action): Node {
    if !Happens(n, a) then n
    else match a
      case Timer(e) =>
        Node(D.Next(n.sw, e), if e.Polled? then PollOf(n.sw, e.now) else n.pending, n.duress)
      case Fire(now) =>
        Node(n.sw, n.pending[1..],
             TriggerStep(n.duress, MissedNote(n.pending[0]), n.duress.lastLocation, contacts, now))
      case Manual(note, location, now) => n.(duress := TriggerStep(n.duress, note, location, contacts, now))
      case Clear => n.(duress := ClearStep(n.duress))
  }

  function Run(contacts: nat, actions: seq<Action>): Node {
    if actions == [] then Node(D.EMPTY, [], CALM)
    else Next(contacts, Run(contacts, actions[..|actions| - 1]), actions[|actions| - 1])
  }

  // ------------------------------------------------------------------ read off the actions alone

  /** The timer events that happened. */
  function Events(contacts: nat, actions: seq<Action>): seq<D.Event> {
    if actions == [] then []
    else
      var before, a := actions[..|actions| - 1], actions[|actions| - 1];
      if a.Timer? && Happens(Run(contacts, before), a) then Events(contacts, before) + [a.e]
      else Events(contacts, before)
  }

  /** All labels that `due` returned, in the order it returned them. */
  function Returned(events: seq<D.Event>): seq<string> {
    if events == [] then []
    else
      var n, e := |events| - 1, events[|events| - 1];
      if e.Polled? then Returned(events[..n]) + PollOf(D.Run(events[..n]), e.now) else Returned(events[..n])
  }

  /** The location of the latest manual trigger, if there was one. */
  function ManualLocation(actions: seq<Action>): Location {
    if actions == [] then None
    else
      var a := actions[|actions| - 1];
      if a.Manual? then a.location else ManualLocation(actions[..|actions| - 1])
  }

  /** How many turns of the loop have found a label to trigger for. */
  function Fired(contacts: nat, actions: seq<Action>): nat {
    if actions == [] then 0
    else
      var before, a := actions[..|actions| - 1], actions[|actions| - 1];
      Fired(contacts, before) + (if a.Fire? && Happens(Run(contacts, before), a) then 1 else 0)
  }

  function Manuals(actions: seq<Action>): nat {
    if actions == [] then 0
    else Manuals(actions[..|actions| - 1]) + (if actions[|actions| - 1].Manual? then 1 else 0)
  }

  /** Whether the latest trigger or clear was a trigger. */
  function Alarmed(contacts: nat, actions: seq<Action>): bool {
    if actions == [] then false
    else
      var before, a := actions[..|actions| - 1], actions[|actions| - 1];
      if a.Manual? || (a.Fire? && Happens(Run(contacts, before), a)) then true
      else if a.Clear? then false
      else Alarmed(contacts, before)
  }

  /** The history that manual triggers and the returned labels, taken in order, should leave. */
  function Expected(contacts: nat, actions: seq<Action>): seq<Alarm> {
    if actions == [] then []
    else
      var before, a := actions[..|actions| - 1], actions[|actions| - 1];
      var returned := Returned(Events(contacts, before));
      Expected(contacts, before)
      + (if a.Manual? then [Alarm(a.now, a.note, a.location, contacts)]
         else if a.Fire? && Fired(contacts, before) < |returned|
         then [Alarm(a.now, "missed check-in: " + returned[Fired(contacts, before)], ManualLocation(before), contacts)]
         else [])
  }

  // ------------------------------------------------------------------ main results

  /** The switch has seen the timer events that happened; what is pending is what was returned and not yet fired. */
  ghost predicate LoopOk(contacts: nat, actions: seq<Action>) {
    var n, returned := Run(contacts, actions), Returned(Events(contacts, actions));
    && n.sw == D.Run(Events(contacts, actions))
    && Fired(contacts, actions) <= |returned|
    && n.pending == returned[Fired(contacts, actions)..]
  }

  lemma EventsLast(events: seq<D.Event>, e: D.Event)
    ensures D.Run(events + [e]) == D.Next(D.Run(events), e)
    ensures Returned(events + [e]) ==
            if e.Polled? then Returned(events) + PollOf(D.Run(events), e.now) else Returned(events)
  {
    assert (events + [e])[..|events|] == events;
  }

  lemma Tail<T>(s: seq<T>, more: seq<T>, k: nat)
    ensures (s + more)[|s|..] == more
    ensures k < |s| ==> s[k..][1..] == s[k + 1..] && s[k..] != [] && s[k..][0] == s[k]
    ensures k <= |s| && s[k..] == [] ==> k == |s|
  {
  }

  lemma TimerKeepsLoopOk(contacts: nat, before: seq<Action>, a: Action)
    requires LoopOk(contacts, before) && a.Timer? && Happens(Run(contacts, before), a)
    ensures LoopOk(contacts, before + [a])
  {
    var events := Events(contacts, before);
    assert (before + [a])[..|before|] == before;
    EventsLast(events, a.e);
    Tail(Returned(events), PollOf(D.Run(events), if a.e.Polled? then a.e.now else 0.0), Fired(contacts, before));
    assert Events(contacts, before + [a]) == events + [a.e];
  }

  lemma OthersKeepLoopOk(contacts: nat, before: seq<Action>, a: Action)
    requires LoopOk(contacts, before) && !(a.Timer? && Happens(Run(contacts, before), a))
    ensures LoopOk(contacts, before + [a])
  {
    assert (before + [a])[..|before|] == before;
    Tail(Returned(Events(contacts, before)), [], Fired(contacts, before));
  }

  lemma {:induction false} EveryRunIsLoopOk(contacts: nat, actions: seq<Action>)
    ensures LoopOk(contacts, actions)
  {
    if actions != [] {
      var before, a := actions[..|actions| - 1], actions[|actions| - 1];
      EveryRunIsLoopOk(contacts, before);
      assert actions == before + [a];
      if a.Timer? && Happens(Run(contacts, before), a) {
        TimerKeepsLoopOk(contacts, before, a);
      } else {
        OthersKeepLoopOk(contacts, before, a);
      }
    }
  }

  /**
    After any interleaving of timer events, polls, turns of the loop, manual triggers and clears: the history
    is what the manual triggers and the returned labels call for, one alarm each, every automatic one with the
    location of the latest manual trigger before it; that location is also what is remembered, and the node
    is in alarm exactly when the latest trigger or clear was a trigger.
  */
  lemma {:induction false} HistoryIsExpected(contacts: nat, actions: seq<Action>)
    ensures var s := Run(contacts, actions).duress;
            && s.history == Expected(contacts, actions)
            && |s.history| == Manuals(actions) + Fired(contacts, actions)
            && s.lastLocation == ManualLocation(actions)
            && s.active == s.since.Some? == Alarmed(contacts, actions)
  {
    if actions != [] {
      var before, a := actions[..|actions| - 1], actions[|actions| - 1];
      HistoryIsExpected(contacts, before);
      EveryRunIsLoopOk(contacts, before);
    }
  }

  /** The note shown is that of the latest alarm, and an alert dates from it. */
  predicate ShowsLatest(s: State) {
    if s.history == [] then s.lastNote == "" && s.since == None
    else
      var latest := s.history[|s.history| - 1];
      s.lastNote == latest.note && (s.since.Some? ==> s.since.value == latest.ts)
  }

  lemma {:induction false} EveryRunShowsLatest(contacts: nat, actions: seq<Action>)
    ensures ShowsLatest(Run(contacts, actions).duress)
  {
    if actions != [] {
      EveryRunShowsLatest(contacts, actions[..|actions| - 1]);
    }
  }

  /** The loop has a turn while labels are left, polls only when none are, and holds nothing else up. */
  lemma TurnsInPlain(contacts: nat, actions: seq<Action>, a: Action)
    ensures Happens(Run(contacts, actions), a) <==>
            var returned := |Returned(Events(contacts, actions))|;
            && (a.Fire? ==> Fired(contacts, actions) < returned)
            && (a.Timer? && a.e.Polled? ==> Fired(contacts, actions) == returned)
  {
    EveryRunIsLoopOk(contacts, actions);
  }

  /** Labels are only ever added to those returned, so the loop fires for them in the order they were returned. */
  lemma {:induction false} ReturnedGrows(contacts: nat, actions: seq<Action>, k: nat)
    requires k <= |actions|
    ensures Returned(Events(contacts, actions[..k])) <= Returned(Events(contacts, actions))
    decreases |actions|
  {
    if k == |actions| {
      assert actions[..k] == actions;
    } else {
      var before, a := actions[..|actions| - 1], actions[|actions| - 1];
      ReturnedGrows(contacts, before, k);
      assert before[..k] == actions[..k];
      if a.Timer? && Happens(Run(contacts, before), a) {
        EventsLast(Events(contacts, before), a.e);
      }
    }
  }

  /** What a poll adds to the returned labels are the firings of the dead-man's switch. */
  lemma ReturnedAreFirings(events: seq<D.Event>, k: nat, name: string)
    requires k < |events| && events[k].Polled?
    ensures var sw := D.Run(events[..k]);
            name in PollOf(sw, events[k].now) <==> D.Fires(events, k, name)
  {
    var sw := D.Run(events[..k]);
    D.RunIsOk(events[..k]);
    var due := D.DueAmong(sw.active, sw.order, events[k].now);
    if D.Fires(events, k, name) {
      var c :| c in due && c.name == name;
      var i :| 0 <= i < |due| && due[i] == c;
      assert Labels(due)[i] == name;
    }
    if name in Labels(due) {
      var i :| 0 <= i < |Labels(due)| && Labels(due)[i] == name;
      assert due[i] in due;
    }
  }
}
