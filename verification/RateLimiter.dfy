/**
  `RateLimiter` of `boddos/security/ratelimit.py`: token buckets per client and the lockout of
  clients that keep failing to authenticate. Clock readings are reals in seconds.
*/
module RateLimiter {
  import opened TokenBucket

  datatype Limits = Limits(rate: real, capacity: real, threshold: int, lockout: real)

  /** The three dictionaries. A bucket's `last` is in seconds here. */
  datatype State = State(buckets: map<string, Bucket>, fails: map<string, int>, locked: map<string, real>)

  // ------------------------------------------------------------------ buckets, in seconds

  function Refilled(l: Limits, b: Bucket, now: real): Bucket {
    Bucket(Min(l.capacity, b.tokens + (now - b.last) * l.rate), now)
  }

  /** `created` is the reading taken inside `_Bucket`, after the one taken by `allow`. */
  function BucketOf(l: Limits, s: State, client: string, created: real): Bucket {
    if client in s.buckets then s.buckets[client] else Bucket(l.capacity, created)
  }

  function AllowStep(l: Limits, s: State, client: string, cost: real, now: real, created: real): (bool, State) {
    var (ok, b) := Spend(Refilled(l, BucketOf(l, s, client, created), now), cost);
    (ok, s.(buckets := s.buckets[client := b]))
  }

  /** The tokens earned in a number of seconds. */
  function Earned(l: Limits, seconds: real): real {
    l.rate * seconds
  }

  function TakeInTokens(l: Limits, t: Take): Take {
    t.(now := Earned(l, t.now))
  }

  function TakesInTokens(l: Limits, takes: seq<Take>): seq<Take> {
    seq(|takes|, i requires 0 <= i < |takes| => TakeInTokens(l, takes[i]))
  }

  /** The same history on a clock that counts tokens earned instead of seconds. */
  function InTokens(l: Limits, h: Ledger): Ledger {
    Ledger(Earned(l, h.created), TakesInTokens(l, h.takes))
  }

  function BucketInTokens(l: Limits, b: Bucket): Bucket {
    b.(last := Earned(l, b.last))
  }

  /** What call `j` of a history in seconds, and the grants since, leave at reading `now`. */
  function CeilingAt(l: Limits, h: Ledger, j: nat, now: real): real
    requires j < |h.takes|
  {
    (if j == 0 then Min(l.capacity, l.capacity + (h.takes[0].now - h.created) * l.rate) else l.capacity)
    + l.rate * (now - h.takes[j].now) - Granted(h.takes[j..])
  }

  /** The two stored numbers are the last reading and the least ceiling of the client's whole history. */
  ghost predicate BucketOk(l: Limits, h: Ledger, b: Bucket) {
    && h.takes != []
    && b.last == h.takes[|h.takes| - 1].now
    && (forall j :: 0 <= j < |h.takes| ==> b.tokens <= CeilingAt(l, h, j, b.last))
    && (exists j :: 0 <= j < |h.takes| && b.tokens == CeilingAt(l, h, j, b.last))
  }

  /** `cost` and all that was granted from any earlier call on fit under what its bucket and the time since allow. */
  ghost predicate CanPay(l: Limits, h: Ledger, now: real, cost: real) {
    var h' := Extended(h, now, cost, false);
    forall j :: 0 <= j < |h'.takes| ==> cost <= CeilingAt(l, h', j, now)
  }

  function Extended(h: Ledger, now: real, cost: real, ok: bool): Ledger {
    Ledger(h.created, h.takes + [Take(now, cost, ok)])
  }

  lemma {:induction false} GrantedInTokens(l: Limits, takes: seq<Take>)
    ensures Granted(TakesInTokens(l, takes)) == Granted(takes)
  {
    if takes != [] {
      var before := takes[..|takes| - 1];
      GrantedInTokens(l, before);
      assert TakesInTokens(l, takes)[..|takes| - 1] == TakesInTokens(l, before);
    }
  }

  lemma EarnedBetween(l: Limits, a: real, b: real)
    ensures l.rate * (a - b) == (a - b) * l.rate == Earned(l, a) - Earned(l, b)
  {
  }

  lemma CeilingInTokens(l: Limits, h: Ledger, j: nat, now: real)
    requires j < |h.takes|
    ensures CeilingAt(l, h, j, now) == Ceiling(l.capacity, InTokens(l, h), j, Earned(l, now))
  {
    GrantedInTokens(l, h.takes[j..]);
    assert InTokens(l, h).takes[j..] == TakesInTokens(l, h.takes[j..]);
    EarnedBetween(l, now, h.takes[j].now);
    EarnedBetween(l, h.takes[0].now, h.created);
  }

  lemma RefilledInTokens(l: Limits, b: Bucket, now: real)
    ensures BucketInTokens(l, Refilled(l, b, now)) == Refill(l.capacity, BucketInTokens(l, b), Earned(l, now))
  {
    EarnedBetween(l, now, b.last);
  }

  lemma LastInTokens(l: Limits, h: Ledger, now: real, cost: real, ok: bool)
    ensures InTokens(l, Extended(h, now, cost, ok)) == Extended(InTokens(l, h), Earned(l, now), cost, ok)
  {
    var h' := Extended(h, now, cost, ok);
    var last := Take(Earned(l, now), cost, ok);
    assert TakeInTokens(l, Take(now, cost, ok)) == last;
    assert TakesInTokens(l, h'.takes) == TakesInTokens(l, h.takes) + [last];
  }

  lemma BucketOkInTokens(l: Limits, h: Ledger, b: Bucket)
    requires h.takes != [] && b.last == h.takes[|h.takes| - 1].now
    ensures BucketOk(l, h, b) <==> IsMinimum(l.capacity, InTokens(l, h), BucketInTokens(l, b))
  {
    var n := |h.takes|;
    assert InTokens(l, h).takes[n - 1] == TakeInTokens(l, h.takes[n - 1]);
    SameCeilings(l, h, b.last);
  }

  lemma SameCeilings(l: Limits, h: Ledger, now: real)
    ensures |InTokens(l, h).takes| == |h.takes|
    ensures forall j :: 0 <= j < |h.takes| ==>
              CeilingAt(l, h, j, now) == Ceiling(l.capacity, InTokens(l, h), j, Earned(l, now))
  {
    forall j | 0 <= j < |h.takes|
      ensures CeilingAt(l, h, j, now) == Ceiling(l.capacity, InTokens(l, h), j, Earned(l, now))
    {
      CeilingInTokens(l, h, j, now);
    }
  }

  lemma CanPayInTokens(l: Limits, h: Ledger, now: real, cost: real)
    ensures CanPay(l, h, now, cost)
            <==> Affordable(l.capacity, InTokens(l, h).created, InTokens(l, h).takes, Earned(l, now), cost)
  {
    LastInTokens(l, h, now, cost, false);
    SameCeilings(l, Extended(h, now, cost, false), now);
  }

  /** Spending from a bucket in tokens is spending from the bucket in seconds. */
  lemma SpendInTokens(l: Limits, b: Bucket, now: real, cost: real)
    ensures var (ok, b') := Spend(Refilled(l, b, now), cost);
            Spend(Refill(l.capacity, BucketInTokens(l, b), Earned(l, now)), cost) == (ok, BucketInTokens(l, b'))
  {
    RefilledInTokens(l, b, now);
  }

  /** The exact law: `allow` succeeds exactly when the whole history can pay, and leaves the longer one's minimum. */
  lemma AllowIsExact(l: Limits, h: Ledger, b: Bucket, now: real, cost: real)
    requires if h.takes == [] then b == Bucket(l.capacity, h.created) else BucketOk(l, h, b)
    ensures var (ok, b') := Spend(Refilled(l, b, now), cost);
            (ok <==> CanPay(l, h, now, cost)) && BucketOk(l, Extended(h, now, cost, ok), b')
  {
    var (ok, b') := Spend(Refilled(l, b, now), cost);
    SpendInTokens(l, b, now, cost);
    CanPayInTokens(l, h, now, cost);
    LastInTokens(l, h, now, cost, ok);
    BucketOkInTokens(l, Extended(h, now, cost, ok), b');
    MinimumMovesOn(l, h, b, Earned(l, now), cost);
  }

  lemma MinimumMovesOn(l: Limits, h: Ledger, b: Bucket, now: real, cost: real)
    requires if h.takes == [] then b == Bucket(l.capacity, h.created) else BucketOk(l, h, b)
    ensures var (ok, b') := Spend(Refill(l.capacity, BucketInTokens(l, b), now), cost);
            && IsMinimum(l.capacity, Extended(InTokens(l, h), now, cost, ok), b')
            && (ok <==> Affordable(l.capacity, InTokens(l, h).created, InTokens(l, h).takes, now, cost))
  {
    if h.takes == [] {
      assert InTokens(l, h).takes == [];
      assert forall t: Take :: [] + [t] == [t];
      FirstTakeIsMinimum(l.capacity, Earned(l, h.created), now, cost);
    } else {
      BucketOkInTokens(l, h, b);
      NextTakeIsMinimum(l.capacity, InTokens(l, h), BucketInTokens(l, b), now, cost);
    }
  }

  type Ledgers = map<string, Ledger>

  function LedgerOf(ledgers: Ledgers, client: string, created: real): Ledger {
    if client in ledgers then ledgers[client] else Ledger(created, [])
  }

  function Entered(ledgers: Ledgers, client: string, cost: real, now: real, created: real, ok: bool): Ledgers {
    ledgers[client := Extended(LedgerOf(ledgers, client, created), now, cost, ok)]
  }

  /** Every bucket is the minimum of its client's history. */
  ghost predicate BucketsOk(l: Limits, buckets: map<string, Bucket>, ledgers: Ledgers) {
    && buckets.Keys == ledgers.Keys
    && forall c :: c in buckets ==> BucketOk(l, ledgers[c], buckets[c])
  }

  lemma AllowKeepsBucketsOk(l: Limits, s: State, s': State, ledgers: Ledgers, client: string, cost: real, now: real,
                            created: real, ok: bool)
    requires BucketsOk(l, s.buckets, ledgers) && (ok, s') == AllowStep(l, s, client, cost, now, created)
    ensures ok <==> CanPay(l, LedgerOf(ledgers, client, created), now, cost)
    ensures BucketsOk(l, s'.buckets, Entered(ledgers, client, cost, now, created, ok))
  {
    AllowIsExact(l, LedgerOf(ledgers, client, created), BucketOf(l, s, client, created), now, cost);
  }

  // ------------------------------------------------------------------ the window bound, in seconds

  /** Every answer of the history is the affordable one. */
  ghost predicate LawfulLedger(l: Limits, h: Ledger) {
    forall i :: 0 <= i < |h.takes| ==>
      (h.takes[i].granted <==> CanPay(l, Ledger(h.created, h.takes[..i]), h.takes[i].now, h.takes[i].cost))
  }

  lemma ExtendedIsLawful(l: Limits, h: Ledger, now: real, cost: real, ok: bool)
    requires LawfulLedger(l, h) && (ok <==> CanPay(l, h, now, cost))
    ensures LawfulLedger(l, Extended(h, now, cost, ok))
  {
    var h' := Extended(h, now, cost, ok);
    forall i | 0 <= i < |h'.takes|
      ensures h'.takes[i].granted <==> CanPay(l, Ledger(h.created, h'.takes[..i]), h'.takes[i].now, h'.takes[i].cost)
    {
      assert h'.takes[..i] == h.takes[..i];
      assert Ledger(h.created, h.takes[..|h.takes|]) == h;
    }
  }

  lemma LawfulInTokens(l: Limits, h: Ledger)
    requires LawfulLedger(l, h)
    ensures Lawful(l.capacity, InTokens(l, h))
  {
    var h' := InTokens(l, h);
    forall i | 0 <= i < |h'.takes|
      ensures h'.takes[i].granted
              <==> Affordable(l.capacity, h'.created, h'.takes[..i], h'.takes[i].now, h'.takes[i].cost)
    {
      var prefix := Ledger(h.created, h.takes[..i]);
      CanPayInTokens(l, prefix, h.takes[i].now, h.takes[i].cost);
      assert InTokens(l, prefix).takes == h'.takes[..i];
    }
  }

  lemma EarnedGrows(l: Limits, a: real, b: real)
    requires l.rate >= 0.0 && a <= b
    ensures Earned(l, a) <= Earned(l, b)
  {
  }

  lemma SortedInTokens(l: Limits, takes: seq<Take>)
    requires l.rate >= 0.0 && Sorted(takes)
    ensures Sorted(TakesInTokens(l, takes))
  {
    forall i, j | 0 <= i < j < |takes| ensures TakesInTokens(l, takes)[i].now <= TakesInTokens(l, takes)[j].now {
      EarnedGrows(l, takes[i].now, takes[j].now);
    }
  }

  lemma {:induction false} GrantedInNoMore(l: Limits, takes: seq<Take>, s: real, t: real)
    requires l.rate >= 0.0 && forall i :: 0 <= i < |takes| ==> takes[i].cost >= 0.0
    ensures GrantedIn(takes, s, t) <= GrantedIn(TakesInTokens(l, takes), Earned(l, s), Earned(l, t))
  {
    if takes != [] {
      var n := |takes| - 1;
      GrantedInNoMore(l, takes[..n], s, t);
      assert TakesInTokens(l, takes)[..n] == TakesInTokens(l, takes[..n]);
      assert TakesInTokens(l, takes)[n] == TakeInTokens(l, takes[n]);
      if s <= takes[n].now <= t {
        EarnedGrows(l, s, takes[n].now);
        EarnedGrows(l, takes[n].now, t);
      }
    }
  }

  /** A full bucket and what is earned between two moments. */
  function Allowance(l: Limits, s: real, t: real): real {
    l.capacity + l.rate * (t - s)
  }

  /** A client is granted at most `capacity + rate * (t - s)` between the moments `s` and `t`. */
  lemma WindowBoundInSeconds(l: Limits, h: Ledger, s: real, t: real)
    requires l.rate >= 0.0 && l.capacity >= 0.0 && s <= t
    requires LawfulLedger(l, h) && Sorted(h.takes) && forall i :: 0 <= i < |h.takes| ==> h.takes[i].cost >= 0.0
    ensures GrantedIn(h.takes, s, t) <= Allowance(l, s, t)
  {
    LawfulInTokens(l, h);
    SortedInTokens(l, h.takes);
    EarnedGrows(l, s, t);
    WindowBound(l.capacity, InTokens(l, h), Earned(l, s), Earned(l, t));
    GrantedInNoMore(l, h.takes, s, t);
    EarnedBetween(l, t, s);
  }

  // ------------------------------------------------------------------ lockout

  function Fails(s: State, client: string): int {
    if client in s.fails then s.fails[client] else 0
  }

  function Forgotten(s: State, client: string): State {
    s.(fails := s.fails - {client}, locked := s.locked - {client})
  }

  function IsLockedStep(s: State, client: string, now: real): (bool, State) {
    if client !in s.locked then (false, s)
    else if now >= s.locked[client] then (false, Forgotten(s, client))
    else (true, s)
  }

  function FailureStep(l: Limits, s: State, client: string, now: real): State {
    var n := Fails(s, client) + 1;
    s.(fails := s.fails[client := n],
       locked := if n >= l.threshold then s.locked[client := now + l.lockout] else s.locked)
  }

  // ------------------------------------------------------------------ the object

  lemma PutTwice(m: map<string, Bucket>, k: string, b1: Bucket, b2: Bucket)
    ensures m[k := b1][k := b2] == m[k := b2]
  {
  }

  class RateLimiter {
    const limits: Limits
    var buckets: map<string, Bucket>
    var fails: map<string, int>
    var locked: map<string, real>
    /** Every `allow` call so far, by client. */
    ghost var ledgers: Ledgers

    ghost predicate Valid()
      reads this
    {
      BucketsOk(limits, buckets, ledgers)
    }

    ghost function Abs(): State
      reads this
    {
      State(buckets, fails, locked)
    }

    constructor (limits: Limits)
      ensures Valid() && this.limits == limits && Abs() == State(map[], map[], map[]) && ledgers == map[]
    {
      this.limits, buckets, fails, locked, ledgers := limits, map[], map[], map[], map[];
    }

    /** The executable part of `Allow`. */
    method Draw(client: string, cost: real, now: real, created: real) returns (ok: bool)
      modifies `buckets
      ensures (ok, Abs()) == AllowStep(limits, old(Abs()), client, cost, now, created)
    {
      if client !in buckets {
        buckets := buckets[client := Bucket(limits.capacity, created)];
      }
      var b := Refilled(limits, buckets[client], now);
      ok := !(b.tokens < cost);
      if ok {
        b := b.(tokens := b.tokens - cost);
      }
      buckets := buckets[client := b];
      PutTwice(old(buckets), client, Bucket(limits.capacity, created), b);
    }

    method Allow(client: string, cost: real, now: real, created: real) returns (ok: bool)
      requires Valid()
      modifies `buckets, `ledgers
      ensures Valid()
      ensures (ok, Abs()) == AllowStep(limits, old(Abs()), client, cost, now, created)
      ensures ok <==> CanPay(limits, LedgerOf(old(ledgers), client, created), now, cost)
      ensures ledgers == Entered(old(ledgers), client, cost, now, created, ok)
    {
      ok := Draw(client, cost, now, created);
      AllowKeepsBucketsOk(limits, old(Abs()), Abs(), ledgers, client, cost, now, created, ok);
      ledgers := Entered(ledgers, client, cost, now, created, ok);
    }

    method IsLocked(client: string, now: real) returns (isLocked: bool)
      requires Valid()
      modifies `fails, `locked
      ensures Valid() && (isLocked, Abs()) == IsLockedStep(old(Abs()), client, now)
    {
      if client !in locked {
        return false;
      }
      if now >= locked[client] {
        locked := locked - {client};
        fails := fails - {client};
        return false;
      }
      return true;
    }

    method RecordFailure(client: string, now: real)
      requires Valid()
      modifies `fails, `locked
      ensures Valid() && Abs() == FailureStep(limits, old(Abs()), client, now)
    {
      var n := (if client in fails then fails[client] else 0) + 1;
      fails := fails[client := n];
      if n >= limits.threshold {
        locked := locked[client := now + limits.lockout];
      }
    }

    method RecordSuccess(client: string)
      requires Valid()
      modifies `fails, `locked
      ensures Valid() && Abs() == Forgotten(old(Abs()), client)
    {
      fails := fails - {client};
      locked := locked - {client};
    }
  }
}
