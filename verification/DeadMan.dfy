/** The dead-man's switch of `boddos/safety/deadman.py`, against its history of events. Clock readings are reals. */
module DeadMan {
  import opened Wrappers

  datatype CheckIn = CheckIn(name: string, deadline: real, interval: Option<real>, fired: bool)

  /** The dictionary of check-ins and the order in which it is iterated. */
  datatype Switch = Switch(active: map<string, CheckIn>, order: seq<string>)

  const EMPTY := Switch(map[], [])

  datatype Answer = NoSuchCheckIn | Rearmed(seconds: real) | Cleared

  predicate Overdue(c: CheckIn, now: real) {
    !c.fired && now >= c.deadline
  }

  function Without(order: seq<string>, name: string): seq<string> {
    if order == [] then []
    else Without(order[..|order| - 1], name) + (if order[|order| - 1] == name then [] else [order[|order| - 1]])
  }

  function Put(sw: Switch, c: CheckIn): Switch {
    Switch(sw.active[c.name := c], if c.name in sw.active then sw.order else sw.order + [c.name])
  }

  function Removed(sw: Switch, name: string): Switch {
    Switch(sw.active - {name}, Without(sw.order, name))
  }

  function ArmStep(sw: Switch, name: string, minutes: real, recurring: bool, now: real): Switch {
    var interval := minutes * 60.0;
    Put(sw, CheckIn(name, now + interval, if recurring then Some(interval) else None, false))
  }

  /** An interval of zero is falsy, as no interval is. */
  function CheckInStep(sw: Switch, name: string, now: real): (Answer, Switch) {
    if name !in sw.active then (NoSuchCheckIn, sw)
    else
      var c := sw.active[name];
      if c.interval.Some? && c.interval.value != 0.0 then
        (Rearmed(c.interval.value), Put(sw, c.(deadline := now + c.interval.value, fired := false)))
      else (Cleared, Removed(sw, name))
  }

  function CancelStep(sw: Switch, name: string): (bool, Switch) {
    if name in sw.active then (true, Removed(sw, name)) else (false, sw)
  }

  /** The overdue ones among these labels, in order, as they are after being marked. */
  function DueAmong(active: map<string, CheckIn>, names: seq<string>, now: real): seq<CheckIn> {
    if names == [] then []
    else
      var l := names[|names| - 1];
      DueAmong(active, names[..|names| - 1], now)
      + (if l in active && Overdue(active[l], now) then [active[l].(fired := true)] else [])
  }

  /** The dictionary once the overdue ones among these labels are marked. */
  function Marked(active: map<string, CheckIn>, names: seq<string>, now: real): map<string, CheckIn> {
    map l | l in active :: if l in names && Overdue(active[l], now) then active[l].(fired := true) else active[l]
  }

  ghost predicate SwitchOk(sw: Switch) {
    && (forall l :: l in sw.order <==> l in sw.active)
    && (forall i, j :: 0 <= i < j < |sw.order| ==> sw.order[i] != sw.order[j])
    && (forall l :: l in sw.active ==> sw.active[l].name == l)
  }

  function DueStep(sw: Switch, now: real): (seq<CheckIn>, Switch)
    requires SwitchOk(sw)
  {
    (DueAmong(sw.active, sw.order, now), Switch(Marked(sw.active, sw.order, now), sw.order))
  }

  lemma {:induction false} WithoutHolds(order: seq<string>, name: string)
    requires forall i, j :: 0 <= i < j < |order| ==> order[i] != order[j]
    ensures forall l :: l in Without(order, name) <==> l in order && l != name
    ensures forall i, j :: 0 <= i < j < |Without(order, name)| ==> Without(order, name)[i] != Without(order, name)[j]
  {
    if order != [] {
      var init, last := order[..|order| - 1], order[|order| - 1];
      WithoutHolds(init, name);
      assert order == init + [last];
      assert last !in init;
    }
  }

  lemma StepsKeepSwitchOk(sw: Switch, c: CheckIn, name: string)
    requires SwitchOk(sw)
    ensures SwitchOk(Put(sw, c)) && SwitchOk(Removed(sw, name))
  {
    WithoutHolds(sw.order, name);
  }

  lemma {:induction false} DueAmongHolds(active: map<string, CheckIn>, names: seq<string>, now: real)
    requires forall l :: l in names ==> l in active && active[l].name == l
    ensures forall c :: c in DueAmong(active, names, now) <==>
              c.name in names && Overdue(active[c.name], now) && c == active[c.name].(fired := true)
  {
    if names != [] {
      var init, last := names[..|names| - 1], names[|names| - 1];
      DueAmongHolds(active, init, now);
      assert names == init + [last];
    }
  }

  lemma MarkedIsOk(sw: Switch, now: real)
    requires SwitchOk(sw)
    ensures SwitchOk(DueStep(sw, now).1)
  {
  }

  lemma Visit(active: map<string, CheckIn>, names: seq<string>, l: string, now: real)
    requires l !in names && l in active
    ensures var c := Marked(active, names, now)[l];
            && c == active[l]
            && DueAmong(active, names + [l], now)
               == DueAmong(active, names, now) + (if Overdue(c, now) then [c.(fired := true)] else [])
            && Marked(active, names + [l], now)
               == if Overdue(c, now) then Marked(active, names, now)[l := c.(fired := true)]
                  else Marked(active, names, now)
  {
    assert (names + [l])[..|names|] == names;
  }

  /** One turn of the loop of `due`. */
  lemma DueTurn(sw: Switch, i: nat, now: real)
    requires SwitchOk(sw) && i < |sw.order|
    ensures var l := sw.order[i];
            && l in sw.active && l in Marked(sw.active, sw.order[..i], now)
            && var c := Marked(sw.active, sw.order[..i], now)[l];
               && DueAmong(sw.active, sw.order[..i + 1], now)
                  == DueAmong(sw.active, sw.order[..i], now) + (if Overdue(c, now) then [c.(fired := true)] else [])
               && Marked(sw.active, sw.order[..i + 1], now)
                  == if Overdue(c, now) then Marked(sw.active, sw.order[..i], now)[l := c.(fired := true)]
                     else Marked(sw.active, sw.order[..i], now)
  {
    assert sw.order[i] !in sw.order[..i];
    assert sw.order[..i + 1] == sw.order[..i] + [sw.order[i]];
    Visit(sw.active, sw.order[..i], sw.order[i], now);
  }

  /** What a check-in answers: an unknown label, the seconds it is re-armed for, or that it is done with. */
  lemma CheckInInPlain(sw: Switch, name: string, now: real)
    ensures var answer := CheckInStep(sw, name, now).0;
            && (answer == NoSuchCheckIn <==> name !in sw.active)
            && (forall seconds :: answer == Rearmed(seconds) <==>
                  name in sw.active && sw.active[name].interval == Some(seconds) && seconds != 0.0)
            && (answer == Cleared <==>
                  name in sw.active && (sw.active[name].interval == None || sw.active[name].interval == Some(0.0)))
  {
  }

  /** Cancelling says whether there was something to cancel. */
  lemma CancelInPlain(sw: Switch, name: string)
    ensures CancelStep(sw, name).0 <==> name in sw.active
    ensures CancelStep(sw, name).1.active == sw.active - {name}
  {
  }

  // ------------------------------------------------------------------ the object

  class DeadMansSwitch {
    var active: map<string, CheckIn>
    var order: seq<string>

    ghost function Abs(): Switch
      reads this
    {
      Switch(active, order)
    }

    ghost predicate Valid()
      reads this
    {
      SwitchOk(Abs())
    }

    constructor ()
      ensures Valid() && Abs() == EMPTY
    {
      active, order := map[], [];
    }

    method Arm(name: string, minutes: real, recurring: bool, now: real)
      requires Valid()
      modifies this
      ensures Valid() && Abs() == ArmStep(old(Abs()), name, minutes, recurring, now)
    {
      var interval := minutes * 60.0;
      var c := CheckIn(name, now + interval, if recurring then Some(interval) else None, false);
      StepsKeepSwitchOk(Abs(), c, name);
      if name !in active {
        order := order + [name];
      }
      active := active[name := c];
    }

    method CheckInNow(name: string, now: real) returns (answer: Answer)
      requires Valid()
      modifies this
      ensures Valid() && (answer, Abs()) == CheckInStep(old(Abs()), name, now)
    {
      if name !in active {
        return NoSuchCheckIn;
      }
      var c := active[name];
      if c.interval.Some? && c.interval.value != 0.0 {
        c := c.(deadline := now + c.interval.value, fired := false);
        StepsKeepSwitchOk(Abs(), c, name);
        active := active[name := c];
        return Rearmed(c.interval.value);
      }
      StepsKeepSwitchOk(Abs(), c, name);
      active, order := active - {name}, Without(order, name);
      return Cleared;
    }

    method Cancel(name: string) returns (ok: bool)
      requires Valid()
      modifies this
      ensures Valid() && (ok, Abs()) == CancelStep(old(Abs()), name)
    {
      ok := name in active;
      if ok {
        StepsKeepSwitchOk(Abs(), active[name], name);
        active, order := active - {name}, Without(order, name);
      }
    }

    method Due(now: real) returns (out: seq<CheckIn>)
      requires Valid()
      modifies this
      ensures Valid() && (out, Abs()) == DueStep(old(Abs()), now)
    {
      ghost var sw := Abs();
      out := [];
      var i := 0;
      while i < |order|
        invariant 0 <= i <= |order| && order == sw.order
        invariant out == DueAmong(sw.active, sw.order[..i], now)
        invariant active == Marked(sw.active, sw.order[..i], now)
      {
        DueTurn(sw, i, now);
        var c := active[order[i]];
        if !c.fired && now >= c.deadline {
          c := c.(fired := true);
          active := active[order[i] := c];
          out := out + [c];
        }
        i := i + 1;
      }
      assert sw.order[..i] == sw.order;
      MarkedIsOk(sw, now);
    }
  }

  // ------------------------------------------------------------------ histories

  datatype Event =
    | Armed(name: string, minutes: real, recurring: bool, now: real)
    | CheckedIn(name: string, now: real)
    | Cancelled(name: string)
    | Polled(now: real)

  function Next(sw: Switch, e: Event): Switch {
    match e
    case Armed(name, minutes, recurring, now) => ArmStep(sw, name, minutes, recurring, now)
    case CheckedIn(name, now) => CheckInStep(sw, name, now).1
    case Cancelled(name) => CancelStep(sw, name).1
    case Polled(now) => Switch(Marked(sw.active, sw.order, now), sw.order)
  }

  function Run(events: seq<Event>): Switch {
    if events == [] then EMPTY else Next(Run(events[..|events| - 1]), events[|events| - 1])
  }

  lemma NextIsOk(sw: Switch, e: Event)
    requires SwitchOk(sw)
    ensures SwitchOk(Next(sw, e))
  {
    match e
    case Armed(name, minutes, recurring, now) =>
      var c := CheckIn(name, now + minutes * 60.0, if recurring then Some(minutes * 60.0) else None, false);
      StepsKeepSwitchOk(sw, c, name);
    case CheckedIn(name, now) =>
      if name in sw.active {
        var c := sw.active[name];
        var seconds := if c.interval.Some? then c.interval.value else 0.0;
        StepsKeepSwitchOk(sw, c.(deadline := now + seconds, fired := false), name);
      }
    case Cancelled(name) =>
      if name in sw.active {
        StepsKeepSwitchOk(sw, sw.active[name], name);
      }
    case Polled(now) =>
      MarkedIsOk(sw, now);
  }

  lemma {:induction false} RunIsOk(events: seq<Event>)
    ensures SwitchOk(Run(events))
  {
    if events != [] {
      RunIsOk(events[..|events| - 1]);
      NextIsOk(Run(events[..|events| - 1]), events[|events| - 1]);
    }
  }

  /** The life of a label since event `start`, with the deadline that event set. */
  datatype Epoch = Epoch(start: nat, deadline: real, interval: Option<real>)

  /** The epoch a label is in, read off the events alone. */
  function EpochOf(events: seq<Event>, name: string): Option<Epoch> {
    if events == [] then None
    else
      var n, e := |events| - 1, events[|events| - 1];
      var before := EpochOf(events[..n], name);
      match e
      case Armed(l, minutes, recurring, now) =>
        if l == name then Some(Epoch(n, now + minutes * 60.0, if recurring then Some(minutes * 60.0) else None))
        else before
      case CheckedIn(l, now) =>
        if l == name && before.Some? then
          if before.value.interval.Some? && before.value.interval.value != 0.0
          then Some(Epoch(n, now + before.value.interval.value, before.value.interval)) else None
        else before
      case Cancelled(l) => if l == name then None else before
      case Polled(_) => before
  }

  /** Some poll of the epoch has read at or past its deadline. */
  ghost predicate PolledDue(events: seq<Event>, epoch: Epoch) {
    exists k :: epoch.start < k < |events| && events[k].Polled? && events[k].now >= epoch.deadline
  }

  /** The switch's entry for a label is its epoch, marked as fired exactly when a poll has found it due. */
  ghost predicate EntryOk(events: seq<Event>, sw: Switch, name: string) {
    match EpochOf(events, name)
    case None => name !in sw.active
    case Some(ep) =>
      && ep.start < |events| && name in sw.active
      && sw.active[name] == CheckIn(name, ep.deadline, ep.interval, PolledDue(events, ep))
  }

  lemma PolledDueGrows(events: seq<Event>, e: Event, ep: Epoch)
    requires ep.start < |events|
    ensures PolledDue(events + [e], ep) <==> PolledDue(events, ep) || (e.Polled? && e.now >= ep.deadline)
  {
    var events' := events + [e];
    if PolledDue(events, ep) {
      var k :| ep.start < k < |events| && events[k].Polled? && events[k].now >= ep.deadline;
      assert events'[k] == events[k];
    }
    if e.Polled? && e.now >= ep.deadline {
      assert events'[|events|] == e;
    }
    if PolledDue(events', ep) {
      var k :| ep.start < k < |events'| && events'[k].Polled? && events'[k].now >= ep.deadline;
      assert k < |events| ==> events[k] == events'[k];
    }
  }

  lemma NoPollYet(events: seq<Event>, ep: Epoch)
    requires |events| <= ep.start + 1
    ensures !PolledDue(events, ep)
  {
  }

  predicate Touches(e: Event, name: string) {
    !e.Polled? && e.name == name
  }

  lemma EntryUntouched(events: seq<Event>, sw: Switch, e: Event, name: string)
    requires EntryOk(events, sw, name) && SwitchOk(sw) && !Touches(e, name)
    ensures EntryOk(events + [e], Next(sw, e), name)
  {
    assert (events + [e])[..|events|] == events;
    var before := EpochOf(events, name);
    assert EpochOf(events + [e], name) == before;
    if before.Some? {
      PolledDueGrows(events, e, before.value);
      var c := sw.active[name];
      if e.Polled? {
        assert Next(sw, e).active[name] == if Overdue(c, e.now) then c.(fired := true) else c;
      } else {
        assert Next(sw, e).active[name] == c;
      }
    }
  }

  lemma EntryTouched(events: seq<Event>, sw: Switch, e: Event, name: string)
    requires EntryOk(events, sw, name) && SwitchOk(sw) && Touches(e, name)
    ensures EntryOk(events + [e], Next(sw, e), name)
  {
    assert (events + [e])[..|events|] == events;
    var after := EpochOf(events + [e], name);
    if after.Some? {
      NoPollYet(events + [e], after.value);
    }
  }

  lemma {:induction false} EntriesAreEpochs(events: seq<Event>, name: string)
    ensures EntryOk(events, Run(events), name)
  {
    if events != [] {
      var before, e := events[..|events| - 1], events[|events| - 1];
      EntriesAreEpochs(before, name);
      RunIsOk(before);
      if Touches(e, name) {
        EntryTouched(before, Run(before), e, name);
      } else {
        EntryUntouched(before, Run(before), e, name);
      }
      assert events == before + [e];
    }
  }

  /** Poll `k` of the history returns the name. */
  ghost predicate Fires(events: seq<Event>, k: nat, name: string)
    requires k < |events|
  {
    RunIsOk(events[..k]);
    events[k].Polled? && exists c :: c in DueStep(Run(events[..k]), events[k].now).0 && c.name == name
  }

  /** A poll returns a label exactly when it is the first poll of the name's epoch to read at or past the deadline. */
  lemma FiresAtFirstDuePoll(events: seq<Event>, k: nat, name: string)
    requires k < |events|
    ensures Fires(events, k, name) <==>
            && events[k].Polled? && EpochOf(events[..k], name).Some?
            && var ep := EpochOf(events[..k], name).value;
               events[k].now >= ep.deadline && !PolledDue(events[..k], ep)
  {
    var sw := Run(events[..k]);
    RunIsOk(events[..k]);
    EntriesAreEpochs(events[..k], name);
    if events[k].Polled? {
      DueAmongHolds(sw.active, sw.order, events[k].now);
      if name in sw.active {
        var c := sw.active[name].(fired := true);
        assert Overdue(sw.active[name], events[k].now) ==> c in DueStep(sw, events[k].now).0;
      }
    }
  }

  /** A label that is still in the epoch begun at `start` has been in it since. */
  lemma {:induction false} EpochLasts(events: seq<Event>, name: string, k: nat)
    requires EpochOf(events, name).Some? && EpochOf(events, name).value.start < k <= |events|
    ensures EpochOf(events[..k], name) == EpochOf(events, name)
    decreases |events|
  {
    if k == |events| {
      assert events[..k] == events;
    } else {
      var before := events[..|events| - 1];
      assert EpochOf(before, name) == EpochOf(events, name);
      EpochLasts(before, name, k);
      assert before[..k] == events[..k];
    }
  }

  /** A due poll of an epoch that lasts has marked it. */
  lemma EpochStaysDue(events: seq<Event>, name: string, j: nat, ep: Epoch)
    requires j < |events| && EpochOf(events[..j], name) == Some(ep) && ep.start < j
    requires events[j].Polled? && events[j].now >= ep.deadline
    requires EpochOf(events, name).Some? && EpochOf(events, name).value.start == ep.start
    ensures EpochOf(events, name) == Some(ep) && PolledDue(events, ep)
  {
    EpochLasts(events, name, j);
  }

  /** One alarm per arming: two polls that return a label return different epochs of it, on any clock. */
  lemma EpochFiresOnce(events: seq<Event>, name: string, j: nat, k: nat)
    requires j < k < |events| && Fires(events, j, name) && Fires(events, k, name)
    ensures EpochOf(events[..j], name).Some? && EpochOf(events[..k], name).Some?
    ensures EpochOf(events[..j], name).value.start != EpochOf(events[..k], name).value.start
  {
    FiresAtFirstDuePoll(events, j, name);
    FiresAtFirstDuePoll(events, k, name);
    EntriesAreEpochs(events[..j], name);
    assert events[..k][..j] == events[..j] && events[..k][j] == events[j];
    var early, late := EpochOf(events[..j], name).value, EpochOf(events[..k], name).value;
    if early.start == late.start {
      EpochStaysDue(events[..k], name, j, early);
    }
  }

  /** An epoch that a poll has found due has fired, at the first such poll. */
  lemma DueEpochHasFired(events: seq<Event>, name: string) returns (k: nat)
    requires EpochOf(events, name).Some? && PolledDue(events, EpochOf(events, name).value)
    ensures var ep := EpochOf(events, name).value;
            && ep.start < k < |events| && Fires(events, k, name) && EpochOf(events[..k], name) == Some(ep)
  {
    var ep := EpochOf(events, name).value;
    k :| ep.start < k < |events| && events[k].Polled? && events[k].now >= ep.deadline;
    while PolledDue(events[..k], ep)
      invariant ep.start < k < |events| && events[k].Polled? && events[k].now >= ep.deadline
      decreases k
    {
      var j :| ep.start < j < k && events[..k][j].Polled? && events[..k][j].now >= ep.deadline;
      assert events[j] == events[..k][j];
      k := j;
    }
    EpochLasts(events, name, k);
    FiresAtFirstDuePoll(events, k, name);
  }

  ghost predicate Monotone(events: seq<Event>) {
    forall i, j :: 0 <= i < j < |events| && !events[i].Cancelled? && !events[j].Cancelled?
      ==> events[i].now <= events[j].now
  }

  predicate PollAt(events: seq<Event>, i: int) {
    0 <= i < |events| && events[i].Polled?
  }

  ghost predicate NextPollWithin(events: seq<Event>, i: nat, d: real)
    requires PollAt(events, i)
  {
    exists j :: i < j && PollAt(events, j) && events[j].now <= events[i].now + d
  }

  /** Up to the reading `until`, each poll is followed by another at most `d` later. */
  ghost predicate PollsEvery(events: seq<Event>, d: real, until: real) {
    forall i :: PollAt(events, i) && events[i].now + d <= until ==> NextPollWithin(events, i, d)
  }

  /** Going from poll to poll, the first one in the epoch at or past the deadline comes within `d` of `due`. */
  lemma DuePollComes(events: seq<Event>, ep: Epoch, due: real, p: nat, d: real, until: real) returns (k: nat)
    requires PollsEvery(events, d, until) && due + d <= until && ep.deadline <= due
    requires PollAt(events, p) && events[p].now <= due
    requires forall i :: PollAt(events, i) && i <= ep.start ==> events[i].now <= due
    ensures ep.start < k && PollAt(events, k) && ep.deadline <= events[k].now <= due + d
    decreases |events| - p
  {
    if p > ep.start && events[p].now >= ep.deadline && d >= 0.0 {
      k := p;
    } else {
      assert NextPollWithin(events, p, d);
      var j :| p < j && PollAt(events, j) && events[j].now <= events[p].now + d;
      if j > ep.start && events[j].now >= ep.deadline {
        k := j;
      } else {
        k := DuePollComes(events, ep, due, j, d, until);
      }
    }
  }

  function Max(a: real, b: real): real {
    if a >= b then a else b
  }

  /** An epoch begins at an arming or a check-in. */
  lemma {:induction false} EpochBegins(events: seq<Event>, name: string)
    requires EpochOf(events, name).Some?
    ensures EpochOf(events, name).value.start < |events|
    ensures var e := events[EpochOf(events, name).value.start]; e.Armed? || e.CheckedIn?
  {
    var before := events[..|events| - 1];
    if EpochOf(before, name).Some? {
      EpochBegins(before, name);
    }
  }

  /** When a label's epoch falls due: at its deadline, or at once if that was past when it began. */
  function DueAt(events: seq<Event>, name: string): real
    requires EpochOf(events, name).Some?
  {
    EpochBegins(events, name);
    var ep := EpochOf(events, name).value;
    Max(events[ep.start].now, ep.deadline)
  }

  /**
    On a monotone clock with polls at most `d` apart, a label left in its epoch until `d` past the moment it falls due
    is returned, at a reading from that moment to `d` later.
  */
  lemma AlarmInTime(events: seq<Event>, name: string, p: nat, d: real, until: real) returns (k: nat)
    requires Monotone(events) && PollsEvery(events, d, until)
    requires EpochOf(events, name).Some? && DueAt(events, name) + d <= until
    requires PollAt(events, p) && events[p].now <= DueAt(events, name)
    ensures var ep := EpochOf(events, name).value;
            && k < |events| && Fires(events, k, name) && EpochOf(events[..k], name) == Some(ep)
            && DueAt(events, name) <= events[k].now <= DueAt(events, name) + d
  {
    var ep := EpochOf(events, name).value;
    EpochBegins(events, name);
    var j := DuePollComes(events, ep, DueAt(events, name), p, d, until);
    assert PolledDue(events, ep);
    k := DueEpochHasFired(events, name);
    FiresAtFirstDuePoll(events, k, name);
    forall i | ep.start < i < k && events[i].Polled? ensures events[i].now < ep.deadline {
      assert events[..k][i] == events[i];
    }
  }
}
