/**
  The token bucket of one client (`boddos/security/ratelimit.py`): two stored numbers against the
  history of every call. Tokens, costs and times are reals. Time is measured in tokens: a reading
  is the clock's seconds times the refill rate, so that one unit of time earns one token.
*/
module TokenBucket {
  datatype Bucket = Bucket(tokens: real, last: real)

  /** One `allow` call: its clock reading, the cost asked for and the answer. */
  datatype Take = Take(now: real, cost: real, granted: bool)

  /** A client's calls, oldest first; `created` is the second reading, taken when the bucket was made. */
  datatype Ledger = Ledger(created: real, takes: seq<Take>)

  function Min(a: real, b: real): real {
    if a <= b then a else b
  }

  function Refill(capacity: real, b: Bucket, now: real): Bucket {
    Bucket(Min(capacity, b.tokens + (now - b.last)), now)
  }

  function Spend(b: Bucket, cost: real): (bool, Bucket) {
    if b.tokens < cost then (false, b) else (true, b.(tokens := b.tokens - cost))
  }

  function Paid(t: Take): real {
    if t.granted then t.cost else 0.0
  }

  function Granted(takes: seq<Take>): real {
    if takes == [] then 0.0 else Granted(takes[..|takes| - 1]) + Paid(takes[|takes| - 1])
  }

  /** The level a bucket starts call `j` from at best: its creation level, later its capacity. */
  function Start(capacity: real, h: Ledger, j: nat): real
    requires j < |h.takes|
  {
    if j == 0 then Min(capacity, capacity + (h.takes[0].now - h.created)) else capacity
  }

  /** What call `j` and the grants since leave at reading `now`. */
  function Ceiling(capacity: real, h: Ledger, j: nat, now: real): real
    requires j < |h.takes|
  {
    Start(capacity, h, j) + (now - h.takes[j].now) - Granted(h.takes[j..])
  }

  /** The stored numbers are the last reading and the least of the ceilings over the whole history. */
  ghost predicate IsMinimum(capacity: real, h: Ledger, b: Bucket) {
    && h.takes != []
    && b.last == h.takes[|h.takes| - 1].now
    && (forall j :: 0 <= j < |h.takes| ==> b.tokens <= Ceiling(capacity, h, j, b.last))
    && (exists j :: 0 <= j < |h.takes| && b.tokens == Ceiling(capacity, h, j, b.last))
  }

  /** The call can be paid for from every earlier call on, and from a full bucket. */
  ghost predicate Affordable(capacity: real, created: real, before: seq<Take>, now: real, cost: real) {
    var h := Ledger(created, before + [Take(now, cost, false)]);
    forall j :: 0 <= j < |h.takes| ==> cost <= Ceiling(capacity, h, j, now)
  }

  /** Every answer of the history is the affordable one. */
  ghost predicate Lawful(capacity: real, h: Ledger) {
    forall i :: 0 <= i < |h.takes| ==>
      (h.takes[i].granted <==> Affordable(capacity, h.created, h.takes[..i], h.takes[i].now, h.takes[i].cost))
  }

  lemma GrantedLast(takes: seq<Take>, t: Take)
    ensures Granted(takes + [t]) == Granted(takes) + Paid(t)
  {
    assert (takes + [t])[..|takes|] == takes;
  }

  /** A further call raises an earlier ceiling by the time passed and lowers it by what was granted. */
  lemma CeilingAfter(capacity: real, h: Ledger, t: Take, j: nat, last: real)
    requires j < |h.takes|
    ensures Ceiling(capacity, Ledger(h.created, h.takes + [t]), j, t.now)
            == Ceiling(capacity, h, j, last) + (t.now - last) - Paid(t)
  {
    assert (h.takes + [t])[j..] == h.takes[j..] + [t];
    GrantedLast(h.takes[j..], t);
  }

  /** The latest call's own ceiling. */
  lemma CeilingOfLatest(capacity: real, h: Ledger, t: Take)
    ensures var h' := Ledger(h.created, h.takes + [t]);
            Ceiling(capacity, h', |h.takes|, t.now) == Start(capacity, h', |h.takes|) - Paid(t)
  {
    assert (h.takes + [t])[|h.takes|..] == [] + [t];
    GrantedLast([], t);
  }

  lemma FirstTakeIsMinimum(capacity: real, created: real, now: real, cost: real)
    ensures var (ok, b) := Spend(Refill(capacity, Bucket(capacity, created), now), cost);
            && IsMinimum(capacity, Ledger(created, [Take(now, cost, ok)]), b)
            && (ok <==> Affordable(capacity, created, [], now, cost))
  {
    var (ok, b) := Spend(Refill(capacity, Bucket(capacity, created), now), cost);
    var t := Take(now, cost, ok);
    CeilingOfLatest(capacity, Ledger(created, []), t);
    CeilingOfLatest(capacity, Ledger(created, []), Take(now, cost, false));
    assert [] + [t] == [t];
    assert b.tokens == Ceiling(capacity, Ledger(created, [t]), 0, now);
  }

  /** A call on an existing bucket answers as its history says and leaves the minimum of the longer history. */
  lemma NextTakeIsMinimum(capacity: real, h: Ledger, b: Bucket, now: real, cost: real)
    requires IsMinimum(capacity, h, b)
    ensures var (ok, b') := Spend(Refill(capacity, b, now), cost);
            && IsMinimum(capacity, Ledger(h.created, h.takes + [Take(now, cost, ok)]), b')
            && (ok <==> Affordable(capacity, h.created, h.takes, now, cost))
  {
    var (ok, b') := Spend(Refill(capacity, b, now), cost);
    var t, asked := Take(now, cost, ok), Take(now, cost, false);
    CeilingOfLatest(capacity, h, t);
    CeilingOfLatest(capacity, h, asked);
    forall j | 0 <= j < |h.takes|
      ensures Ceiling(capacity, Ledger(h.created, h.takes + [t]), j, now)
              == Ceiling(capacity, h, j, b.last) + (now - b.last) - Paid(t)
      ensures Ceiling(capacity, Ledger(h.created, h.takes + [asked]), j, now)
              == Ceiling(capacity, h, j, b.last) + (now - b.last)
    {
      CeilingAfter(capacity, h, t, j, b.last);
      CeilingAfter(capacity, h, asked, j, b.last);
    }
    var j :| 0 <= j < |h.takes| && b.tokens == Ceiling(capacity, h, j, b.last);
    var h' := Ledger(h.created, h.takes + [t]);
    assert b'.tokens == Ceiling(capacity, h', j, now) || b'.tokens == Ceiling(capacity, h', |h.takes|, now);
    assert Affordable(capacity, h.created, h.takes, now, cost) ==>
        cost <= Ceiling(capacity, Ledger(h.created, h.takes + [asked]), j, now)
        && cost <= Ceiling(capacity, Ledger(h.created, h.takes + [asked]), |h.takes|, now);
  }

  // ------------------------------------------------------------------ the window bound

  predicate Sorted(takes: seq<Take>) {
    forall i, j :: 0 <= i < j < |takes| ==> takes[i].now <= takes[j].now
  }

  /** The cost granted at readings from `s` to `t`. */
  function GrantedIn(takes: seq<Take>, s: real, t: real): real {
    if takes == [] then 0.0
    else
      var last := takes[|takes| - 1];
      GrantedIn(takes[..|takes| - 1], s, t) + (if s <= last.now <= t then Paid(last) else 0.0)
  }

  /** The first call at or after `s`. */
  lemma {:induction false} FirstSince(takes: seq<Take>, s: real) returns (j: nat)
    requires takes != [] && s <= takes[|takes| - 1].now
    ensures j < |takes| && s <= takes[j].now && forall i :: 0 <= i < j ==> takes[i].now < s
  {
    j := 0;
    while takes[j].now < s
      invariant j < |takes| && forall i :: 0 <= i < j ==> takes[i].now < s
      decreases |takes| - j
    {
      j := j + 1;
    }
  }

  lemma {:induction false} WindowIsSuffix(takes: seq<Take>, s: real, t: real, j: nat)
    requires j <= |takes|
    requires forall i :: 0 <= i < j ==> takes[i].now < s
    requires forall i :: j <= i < |takes| ==> s <= takes[i].now <= t
    ensures GrantedIn(takes, s, t) == Granted(takes[j..])
  {
    if j < |takes| {
      var before, last := takes[..|takes| - 1], takes[|takes| - 1];
      WindowIsSuffix(before, s, t, j);
      assert takes[j..] == before[j..] + [last];
      GrantedLast(before[j..], last);
    } else if takes != [] {
      WindowIsSuffix(takes[..|takes| - 1], s, t, |takes| - 1);
      assert takes[..|takes| - 1][|takes| - 1..] == takes[j..] == [];
    }
  }

  /** One more grant inside the window still fits. */
  lemma GrantFitsWindow(capacity: real, created: real, before: seq<Take>, last: Take, s: real, t: real)
    requires Sorted(before + [last]) && s <= last.now <= t
    requires Affordable(capacity, created, before, last.now, last.cost)
    ensures GrantedIn(before, s, t) + last.cost <= capacity + (t - s)
  {
    var all, asked := before + [last], before + [Take(last.now, last.cost, false)];
    var j := FirstSince(all, s);
    assert forall i :: 0 <= i < |before| ==> before[i] == all[i];
    WindowIsSuffix(before, s, t, j);
    assert asked[j..] == before[j..] + [Take(last.now, last.cost, false)];
    GrantedLast(before[j..], Take(last.now, last.cost, false));
    assert last.cost <= Ceiling(capacity, Ledger(created, asked), j, last.now);
    assert asked[j].now == all[j].now;
  }

  /** At most `capacity + (t - s)` is granted at readings from `s` to `t`. */
  lemma {:induction false} WindowBound(capacity: real, h: Ledger, s: real, t: real)
    requires capacity >= 0.0 && s <= t
    requires Lawful(capacity, h) && Sorted(h.takes)
    ensures GrantedIn(h.takes, s, t) <= capacity + (t - s)
    decreases |h.takes|
  {
    if h.takes != [] {
      var before, last := h.takes[..|h.takes| - 1], h.takes[|h.takes| - 1];
      assert h.takes == before + [last];
      if last.granted && s <= last.now <= t {
        GrantFitsWindow(capacity, h.created, before, last, s, t);
      } else {
        PrefixIsLawful(capacity, h, |before|);
        WindowBound(capacity, Ledger(h.created, before), s, t);
      }
    }
  }

  lemma PrefixIsLawful(capacity: real, h: Ledger, n: nat)
    requires Lawful(capacity, h) && n <= |h.takes|
    ensures Lawful(capacity, Ledger(h.created, h.takes[..n]))
  {
    forall i | 0 <= i < n ensures h.takes[..n][..i] == h.takes[..i] {
    }
  }
}
