/** `AuditLog.record` run by any number of threads, one atomic step at a time. */
module AuditThreads {
  import opened Audit

  type Thread = nat

  /** Where a thread is inside the `with self._lock` block. */
  datatype Phase = Entered | HasRead(prev: Value) | HasAppended

  datatype State = State(lines: seq<Line>, phases: map<Thread, Phase>, completed: nat)

  datatype Step =
    | Lock(t: Thread)
    | ReadLast(t: Thread)
    | Append(t: Thread, ts: Value, actor: string, action: string, detail: Value)
    | Unlock(t: Thread)

  /** A step that is not the thread's next one, or that has to wait for the lock, changes nothing. */
  function Next(h: Hashing, s: State, step: Step): State {
    match step
    case Lock(t) =>
      if s.phases == map[] then s.(phases := map[t := Entered]) else s
    case ReadLast(t) =>
      if t in s.phases && s.phases[t].Entered? then
        s.(phases := s.phases[t := HasRead(LastHash(Entries(s.lines)))])
      else s
    case Append(t, ts, actor, action, detail) =>
      if t in s.phases && s.phases[t].HasRead? then
        var prev := s.phases[t].prev;
        if prev.Str? then
          s.(lines := s.lines + [Json(NewEntry(h, prev.s, ts, actor, action, detail))],
             phases := s.phases[t := HasAppended])
        else s.(phases := s.phases - {t})
      else s
    case Unlock(t) =>
      if t in s.phases && s.phases[t].HasAppended? then
        s.(phases := s.phases - {t}, completed := s.completed + 1)
      else s
  }

  function Exec(h: Hashing, lines: seq<Line>, steps: seq<Step>): State {
    if steps == [] then State(lines, map[], 0)
    else Next(h, Exec(h, lines, steps[..|steps| - 1]), steps[|steps| - 1])
  }

  /** The entry appended by the thread that still holds the lock, if any. */
  function Unfinished(s: State): nat {
    if exists t :: t in s.phases && s.phases[t].HasAppended? then 1 else 0
  }

  /** One thread at a time is inside; what it has read is the final hash of an intact log. */
  ghost predicate StateOk(h: Hashing, n: nat, s: State) {
    && Intact(h, Entries(s.lines))
    && |Entries(s.lines)| == n + s.completed + Unfinished(s)
    && (forall t, u :: t in s.phases && u in s.phases ==> t == u)
    && (forall t :: t in s.phases && s.phases[t].HasRead? ==> s.phases[t].prev == Str(FinalHash(Entries(s.lines))))
  }

  lemma AppendKeepsStateOk(h: Hashing, n: nat, s: State, step: Step)
    requires StateOk(h, n, s) && step.Append? && step.t in s.phases && s.phases[step.t].HasRead?
    ensures StateOk(h, n, Next(h, s, step))
  {
    var e := NewEntry(h, FinalHash(Entries(s.lines)), step.ts, step.actor, step.action, step.detail);
    RecordKeepsIntact(h, Entries(s.lines), step.ts, step.actor, step.action, step.detail);
    EntriesLast(s.lines, Json(e));
    assert Next(h, s, step).phases[step.t].HasAppended?;
  }

  lemma OthersKeepStateOk(h: Hashing, n: nat, s: State, step: Step)
    requires StateOk(h, n, s) && !step.Append? && forall x :: |h.sha(x)| == 64
    ensures StateOk(h, n, Next(h, s, step))
  {
    LastHashOfIntact(h, Entries(s.lines));
    var s' := Next(h, s, step);
    assert step.t in s.phases ==> s.phases.Keys == {step.t};
    assert s' != s && step.Unlock? ==> s'.phases == map[];
  }

  lemma {:induction false} EveryStateIsOk(h: Hashing, lines: seq<Line>, steps: seq<Step>)
    requires Intact(h, Entries(lines)) && forall x :: |h.sha(x)| == 64
    ensures StateOk(h, |Entries(lines)|, Exec(h, lines, steps))
  {
    if steps != [] {
      var s, step := Exec(h, lines, steps[..|steps| - 1]), steps[|steps| - 1];
      EveryStateIsOk(h, lines, steps[..|steps| - 1]);
      if !step.Append? {
        OthersKeepStateOk(h, |Entries(lines)|, s, step);
      } else if step.t in s.phases && s.phases[step.t].HasRead? {
        AppendKeepsStateOk(h, |Entries(lines)|, s, step);
      }
    }
  }

  /**
    From an intact log of `n` entries, under any interleaving: `verify_chain` reports it intact, with
    `n` entries, one for each completed record, and the one of a record still in progress past its append.
  */
  lemma RecordsChain(h: Hashing, lines: seq<Line>, steps: seq<Step>)
    requires VerifyFrom(h, ZERO_HASH, Entries(lines)).0 && forall x :: |h.sha(x)| == 64
    ensures var s := Exec(h, lines, steps);
            && VerifyFrom(h, ZERO_HASH, Entries(s.lines)) == (true, |Entries(lines)| + s.completed + Unfinished(s))
            && (s.phases == map[] ==> Unfinished(s) == 0)
  {
    VerifyIsLongestPrefix(h, Entries(lines));
    EveryStateIsOk(h, lines, steps);
    VerifyIsLongestPrefix(h, Entries(Exec(h, lines, steps).lines));
  }

  // ------------------------------------------------------------------ what the threads have written

  /** How far the thread inside has come; nobody inside is `Outside`. Read off the steps alone. */
  datatype Inside = Outside | At(t: Thread, stage: nat)

  /** Lock, read, append and unlock take effect one after the other, for the thread that is inside. */
  function Turn(inside: Inside, step: Step): Inside {
    match step
    case Lock(t) => if inside == Outside then At(t, 0) else inside
    case ReadLast(t) => if inside == At(t, 0) then At(t, 1) else inside
    case Append(t, _, _, _, _) => if inside == At(t, 1) then At(t, 2) else inside
    case Unlock(t) => if inside == At(t, 2) then Outside else inside
  }

  function InsideAfter(steps: seq<Step>): Inside {
    if steps == [] then Outside else Turn(InsideAfter(steps[..|steps| - 1]), steps[|steps| - 1])
  }

  /** The appends that took effect, in order. */
  function Appends(steps: seq<Step>): (appends: seq<Step>)
    ensures forall i :: 0 <= i < |appends| ==> appends[i].Append?
  {
    if steps == [] then []
    else
      var before, step := steps[..|steps| - 1], steps[|steps| - 1];
      if step.Append? && InsideAfter(before) == At(step.t, 1) then Appends(before) + [step] else Appends(before)
  }

  /** The records that have been completed. */
  function Unlocks(steps: seq<Step>): nat {
    if steps == [] then 0
    else
      var before, step := steps[..|steps| - 1], steps[|steps| - 1];
      Unlocks(before) + if step.Unlock? && InsideAfter(before) == At(step.t, 2) then 1 else 0
  }

  /** The phases of the state are those read off the steps. */
  ghost predicate PhasesOk(s: State, inside: Inside) {
    match inside
    case Outside => s.phases == map[]
    case At(t, stage) =>
      && s.phases.Keys == {t}
      && (stage == 0 <==> s.phases[t].Entered?) && (stage == 1 <==> s.phases[t].HasRead?)
      && (stage == 2 <==> s.phases[t].HasAppended?)
  }

  /** Each entry after the first `n` holds the fields of its append, and the hash of the entry before it. */
  ghost predicate WrittenOk(h: Hashing, es: seq<Entry>, n: nat, appends: seq<Step>)
    requires forall i :: 0 <= i < |appends| ==> appends[i].Append?
  {
    && |es| == n + |appends|
    && forall i :: 0 <= i < |appends| ==> EntryOf(h, es, n + i, appends[i])
  }

  ghost predicate EntryOf(h: Hashing, es: seq<Entry>, k: nat, step: Step)
    requires k < |es| && step.Append?
  {
    Holds(h, es[k], PrevOf(es, k), step.ts, step.actor, step.action, step.detail)
  }

  lemma EntryOfStays(h: Hashing, es: seq<Entry>, e: Entry, k: nat, step: Step)
    requires k < |es| && step.Append? && EntryOf(h, es, k, step)
    ensures EntryOf(h, es + [e], k, step)
  {
    assert PrevOf(es + [e], k) == PrevOf(es, k);
  }

  lemma AppendWrites(h: Hashing, es: seq<Entry>, n: nat, appends: seq<Step>, step: Step)
    requires forall i :: 0 <= i < |appends| ==> appends[i].Append?
    requires WrittenOk(h, es, n, appends) && step.Append?
    ensures WrittenOk(h, es + [NewEntry(h, FinalHash(es), step.ts, step.actor, step.action, step.detail)], n,
                      appends + [step])
  {
    var e := NewEntry(h, FinalHash(es), step.ts, step.actor, step.action, step.detail);
    EntryInPlain(h, FinalHash(es), step.ts, step.actor, step.action, step.detail);
    assert PrevOf(es + [e], |es|) == FinalHash(es);
    forall i | 0 <= i < |appends| ensures EntryOf(h, es + [e], n + i, appends[i]) {
      EntryOfStays(h, es, e, n + i, appends[i]);
    }
  }

  lemma NextIsWritten(h: Hashing, n: nat, s: State, inside: Inside, appends: seq<Step>, step: Step)
    requires forall i :: 0 <= i < |appends| ==> appends[i].Append?
    requires StateOk(h, n, s) && PhasesOk(s, inside) && WrittenOk(h, Entries(s.lines), n, appends)
    ensures PhasesOk(Next(h, s, step), Turn(inside, step))
    ensures WrittenOk(h, Entries(Next(h, s, step).lines), n,
                      if step.Append? && inside == At(step.t, 1) then appends + [step] else appends)
    ensures Next(h, s, step).completed == s.completed + if step.Unlock? && inside == At(step.t, 2) then 1 else 0
  {
    if step.Append? && inside == At(step.t, 1) {
      var e := NewEntry(h, FinalHash(Entries(s.lines)), step.ts, step.actor, step.action, step.detail);
      EntriesLast(s.lines, Json(e));
      AppendWrites(h, Entries(s.lines), n, appends, step);
    }
  }

  /**
    From an intact log of `n` entries, under any interleaving: the entries after those are the appends that the lock
    let through, in order, each with its own fields and the hash before it; and the records completed are counted.
  */
  lemma {:induction false} RecordsAreWritten(h: Hashing, lines: seq<Line>, steps: seq<Step>)
    requires VerifyFrom(h, ZERO_HASH, Entries(lines)).0 && forall x :: |h.sha(x)| == 64
    ensures var s := Exec(h, lines, steps);
            && PhasesOk(s, InsideAfter(steps))
            && WrittenOk(h, Entries(s.lines), |Entries(lines)|, Appends(steps))
            && Entries(s.lines)[..|Entries(lines)|] == Entries(lines)
            && s.completed == Unlocks(steps)
  {
    if steps != [] {
      var before, step := steps[..|steps| - 1], steps[|steps| - 1];
      var s := Exec(h, lines, before);
      RecordsAreWritten(h, lines, before);
      VerifyIsLongestPrefix(h, Entries(lines));
      EveryStateIsOk(h, lines, before);
      NextIsWritten(h, |Entries(lines)|, s, InsideAfter(before), Appends(before), step);
      LinesGrow(h, s, step);
    }
  }

  lemma LinesGrow(h: Hashing, s: State, step: Step)
    ensures Entries(s.lines) <= Entries(Next(h, s, step).lines)
  {
    var s' := Next(h, s, step);
    if s'.lines != s.lines {
      EntriesLast(s.lines, s'.lines[|s.lines|]);
    }
  }
}
