/**
  The request guard of `boddos/api/server.py` over the rate limiter. From `is_locked` to
  `record_failure` or `record_success` it does not await, so one request is one atomic step.

  A step is given the clock readings it may take, in order; the ones a branch does not take are
  free. `tokenOk` is the answer of the bearer-token check.
*/
module Guard {
  import opened TokenBucket
  import opened RateLimiter

  datatype Settings = Settings(limits: Limits, requireToken: bool)

  datatype Request = Request(
    client: string, path: string, tokenOk: bool,
    lockRead: real, allowRead: real, bucketRead: real, failRead: real)

  datatype Response = Exempt | LockedOut | RateLimited | Unauthorized | Authorized | Unchecked

  const EXEMPT_PREFIXES: seq<string> := ["/health", "/ui", "/manifest", "/sw.js", "/api/ui-config"]

  predicate IsExempt(path: string) {
    path == "/" || exists i :: 0 <= i < |EXEMPT_PREFIXES| && EXEMPT_PREFIXES[i] <= path
  }

  /** Past lockout and rate limit: the request reaches authentication or its handler. */
  predicate GotThrough(r: Response) {
    r.Unauthorized? || r.Authorized? || r.Unchecked?
  }

  function GuardStep(cfg: Settings, s: State, r: Request): (Response, State) {
    if IsExempt(r.path) then (Exempt, s)
    else
      var (isLocked, s1) := IsLockedStep(s, r.client, r.lockRead);
      if isLocked then (LockedOut, s1)
      else
        var (ok, s2) := AllowStep(cfg.limits, s1, r.client, 1.0, r.allowRead, r.bucketRead);
        if !ok then (RateLimited, s2)
        else if "/api/" <= r.path && cfg.requireToken then
          if !r.tokenOk then (Unauthorized, FailureStep(cfg.limits, s2, r.client, r.failRead))
          else (Authorized, Forgotten(s2, r.client))
        else (Unchecked, s2)
  }

  /** The node's guard on its limiter object. */
  class NodeState {
    const cfg: Settings
    const ratelimit: RateLimiter

    constructor (cfg: Settings)
      ensures this.cfg == cfg && fresh(ratelimit) && ratelimit.limits == cfg.limits
      ensures ratelimit.Valid() && ratelimit.Abs() == State(map[], map[], map[])
    {
      this.cfg := cfg;
      ratelimit := new RateLimiter(cfg.limits);
    }

    method Guard(r: Request) returns (response: Response)
      requires ratelimit.limits == cfg.limits && ratelimit.Valid()
      modifies ratelimit
      ensures ratelimit.Valid()
      ensures (response, ratelimit.Abs()) == GuardStep(cfg, old(ratelimit.Abs()), r)
    {
      if IsExempt(r.path) {
        return Exempt;
      }
      var isLocked := ratelimit.IsLocked(r.client, r.lockRead);
      if isLocked {
        return LockedOut;
      }
      var ok := ratelimit.Allow(r.client, 1.0, r.allowRead, r.bucketRead);
      if !ok {
        return RateLimited;
      }
      if "/api/" <= r.path && cfg.requireToken {
        if !r.tokenOk {
          ratelimit.RecordFailure(r.client, r.failRead);
          return Unauthorized;
        }
        ratelimit.RecordSuccess(r.client);
        return Authorized;
      }
      return Unchecked;
    }
  }

  // ------------------------------------------------------------------ runs

  datatype Trace = Trace(state: State, ledgers: Ledgers, responses: seq<Response>)

  const FRESH := Trace(State(map[], map[], map[]), map[], [])

  /** The `allow` call a request makes, if it gets that far. */
  function LedgersAfter(cfg: Settings, s: State, ledgers: Ledgers, r: Request): Ledgers {
    if IsExempt(r.path) || IsLockedStep(s, r.client, r.lockRead).0 then ledgers
    else
      var s1 := IsLockedStep(s, r.client, r.lockRead).1;
      var ok := AllowStep(cfg.limits, s1, r.client, 1.0, r.allowRead, r.bucketRead).0;
      Entered(ledgers, r.client, 1.0, r.allowRead, r.bucketRead, ok)
  }

  /** All requests of all clients, handled one after the other from a given state. */
  function RunFrom(cfg: Settings, t: Trace, rs: seq<Request>): Trace {
    if rs == [] then t
    else
      var before, r := RunFrom(cfg, t, rs[..|rs| - 1]), rs[|rs| - 1];
      var (response, s) := GuardStep(cfg, before.state, r);
      Trace(s, LedgersAfter(cfg, before.state, before.ledgers, r), before.responses + [response])
  }

  /** `time.monotonic()` over the whole run. */
  ghost predicate Monotone(rs: seq<Request>) {
    && (forall i :: 0 <= i < |rs| ==> rs[i].lockRead <= rs[i].allowRead <= rs[i].bucketRead <= rs[i].failRead)
    && (forall i, j :: 0 <= i < j < |rs| ==> rs[i].failRead <= rs[j].lockRead)
  }

  // ------------------------------------------------------------------ lockout state

  /** A client is locked exactly when its failures have reached the threshold, which they never exceed. */
  ghost predicate LockoutOk(l: Limits, s: State) {
    forall c :: 0 <= Fails(s, c) <= l.threshold && (c in s.locked <==> Fails(s, c) == l.threshold)
  }

  lemma StepKeepsLockoutOk(cfg: Settings, s: State, r: Request)
    requires cfg.limits.threshold >= 1 && LockoutOk(cfg.limits, s)
    ensures LockoutOk(cfg.limits, GuardStep(cfg, s, r).1)
  {
    var s' := GuardStep(cfg, s, r).1;
    forall c
      ensures 0 <= Fails(s', c) <= cfg.limits.threshold && (c in s'.locked <==> Fails(s', c) == cfg.limits.threshold)
    {
      assert 0 <= Fails(s, c) <= cfg.limits.threshold && (c in s.locked <==> Fails(s, c) == cfg.limits.threshold);
    }
  }

  lemma {:induction false} RunKeepsLockoutOk(cfg: Settings, t: Trace, rs: seq<Request>)
    requires cfg.limits.threshold >= 1 && LockoutOk(cfg.limits, t.state)
    ensures LockoutOk(cfg.limits, RunFrom(cfg, t, rs).state)
  {
    if rs != [] {
      RunKeepsLockoutOk(cfg, t, rs[..|rs| - 1]);
      StepKeepsLockoutOk(cfg, RunFrom(cfg, t, rs[..|rs| - 1]).state, rs[|rs| - 1]);
    }
  }

  lemma EveryRunIsLockoutOk(cfg: Settings, rs: seq<Request>)
    requires cfg.limits.threshold >= 1
    ensures LockoutOk(cfg.limits, RunFrom(cfg, FRESH, rs).state)
  {
    RunKeepsLockoutOk(cfg, FRESH, rs);
  }

  /** The two entries of one client. */
  predicate SameEntries(s: State, t: State, client: string) {
    && Fails(s, client) == Fails(t, client)
    && (client in s.locked <==> client in t.locked)
    && (client in s.locked ==> s.locked[client] == t.locked[client])
  }

  /** The client's requests that are not exempt, and were read before `until`. */
  ghost predicate ReadBefore(rs: seq<Request>, client: string, until: real) {
    forall k :: 0 <= k < |rs| && rs[k].client == client && !IsExempt(rs[k].path) ==> rs[k].lockRead < until
  }

  /** One response a request, and the client's are `response` or for exempt paths. */
  predicate AllAnswered(rs: seq<Request>, responses: seq<Response>, client: string, response: Response) {
    && |responses| == |rs|
    && forall k :: 0 <= k < |rs| && rs[k].client == client
         ==> responses[k] == if IsExempt(rs[k].path) then Exempt else response
  }

  lemma OneMoreAnswer(rs: seq<Request>, responses: seq<Response>, r: Request, x: Response,
                      client: string, response: Response)
    requires AllAnswered(rs, responses, client, response)
    requires r.client == client ==> x == if IsExempt(r.path) then Exempt else response
    ensures AllAnswered(rs + [r], responses + [x], client, response)
  {
  }

  lemma LockedStep(cfg: Settings, s: State, r: Request, client: string)
    requires client in s.locked && (r.client == client && !IsExempt(r.path) ==> r.lockRead < s.locked[client])
    ensures var (response, s') := GuardStep(cfg, s, r);
            && SameEntries(s, s', client)
            && (r.client == client ==> response == if IsExempt(r.path) then Exempt else LockedOut)
  {
  }

  /** Until its lockout runs out, a client is answered with nothing else, however many requests come from whom. */
  lemma {:induction false} LockoutHolds(cfg: Settings, t: Trace, rs: seq<Request>, client: string)
    requires t.responses == [] && client in t.state.locked && ReadBefore(rs, client, t.state.locked[client])
    ensures var t' := RunFrom(cfg, t, rs);
            && AllAnswered(rs, t'.responses, client, LockedOut)
            && SameEntries(t.state, t'.state, client)
  {
    if rs != [] {
      var before, r := rs[..|rs| - 1], rs[|rs| - 1];
      var s := RunFrom(cfg, t, before);
      LockoutHolds(cfg, t, before, client);
      LockedStep(cfg, s.state, r, client);
      OneMoreAnswer(before, s.responses, r, GuardStep(cfg, s.state, r).0, client, LockedOut);
      RunLast(cfg, t, rs);
    }
  }

  /** None of the requests is the client's, exempt ones apart. */
  ghost predicate LeftAlone(rs: seq<Request>, client: string) {
    forall k :: 0 <= k < |rs| && rs[k].client == client ==> IsExempt(rs[k].path)
  }

  lemma {:induction false} OthersLeaveEntries(cfg: Settings, t: Trace, rs: seq<Request>, client: string)
    requires LeftAlone(rs, client)
    ensures SameEntries(t.state, RunFrom(cfg, t, rs).state, client)
  {
    if rs != [] {
      var before := RunFrom(cfg, t, rs[..|rs| - 1]);
      OthersLeaveEntries(cfg, t, rs[..|rs| - 1], client);
      EntriesAfter(cfg, before.state, client, rs[|rs| - 1]);
    }
  }

  /** A recorded failure leaves the client locked exactly when it reaches the threshold, then for the lockout time. */
  lemma FailureLocks(cfg: Settings, s: State, r: Request)
    requires cfg.limits.threshold >= 1 && LockoutOk(cfg.limits, s) && GuardStep(cfg, s, r).0.Unauthorized?
    ensures var s' := GuardStep(cfg, s, r).1;
            && (r.client in s'.locked <==> Reaches(cfg, s, r))
            && (r.client in s'.locked ==> s'.locked[r.client] == r.failRead + cfg.limits.lockout)
  {
    var s1 := IsLockedStep(s, r.client, r.lockRead).1;
    assert r.client in s.locked <==> Fails(s, r.client) == cfg.limits.threshold;
    assert r.client !in s1.locked && Fails(s1, r.client) < cfg.limits.threshold;
  }

  /** One more failure of the client reaches the threshold. */
  predicate Reaches(cfg: Settings, s: State, r: Request) {
    Fails(IsLockedStep(s, r.client, r.lockRead).1, r.client) + 1 == cfg.limits.threshold
  }

  lemma LockedOutExactly(cfg: Settings, s: State, r: Request)
    requires !IsExempt(r.path)
    ensures GuardStep(cfg, s, r).0.LockedOut? <==> r.client in s.locked && r.lockRead < s.locked[r.client]
  {
  }

  /**
    The failure that reaches the threshold, and no other, locks the client: its next request, with any requests of
    others in between, is refused exactly when it comes within the lockout time.
  */
  lemma LockoutBeginsAndEnds(cfg: Settings, t: Trace, r: Request, rs: seq<Request>, later: Request)
    requires cfg.limits.threshold >= 1 && LockoutOk(cfg.limits, t.state)
    requires GuardStep(cfg, t.state, r).0.Unauthorized? && LeftAlone(rs, r.client)
    requires later.client == r.client && !IsExempt(later.path)
    ensures var s' := RunFrom(cfg, RunFrom(cfg, t, [r]), rs).state;
            GuardStep(cfg, s', later).0.LockedOut? <==>
            Reaches(cfg, t.state, r) && later.lockRead < r.failRead + cfg.limits.lockout
  {
    var t' := RunFrom(cfg, t, [r]);
    RunLast(cfg, t, [r]);
    assert [r][..|[r]| - 1] == [];
    FailureLocks(cfg, t.state, r);
    OthersLeaveEntries(cfg, t', rs, r.client);
    LockedOutExactly(cfg, RunFrom(cfg, t', rs).state, later);
  }

  // ------------------------------------------------------------------ failures per window

  /** How many of a client's requests, from number `i` on, got this response. */
  function Count(rs: seq<Request>, responses: seq<Response>, client: string, response: Response, i: nat): nat
    requires |responses| == |rs|
  {
    if |rs| <= i then 0
    else
      var n := |rs| - 1;
      Count(rs[..n], responses[..n], client, response, i)
      + (if rs[n].client == client && responses[n] == response then 1 else 0)
  }

  /** `k * x`, added up. */
  function Rounds(k: nat, x: int): int {
    if k == 0 then 0 else Rounds(k - 1, x) + x
  }

  function Spans(k: nat, x: real): real {
    if k == 0 then 0.0 else Spans(k - 1, x) + x
  }

  lemma {:induction false} RoundsIsProduct(k: nat, x: int)
    ensures Rounds(k, x) == k * x
  {
    if k > 0 {
      RoundsIsProduct(k - 1, x);
    }
  }

  lemma {:induction false} SpansFit(k: nat, x: real, w: real)
    requires x > 0.0 && Spans(k, x) <= w
    ensures k as real <= w / x && k <= (w / x).Floor
  {
    SpansIsProduct(k, x);
    assert k as real * x <= w;
    assert k as real <= w / x;
  }

  lemma {:induction false} SpansIsProduct(k: nat, x: real)
    ensures Spans(k, x) == k as real * x
  {
    if k > 0 {
      SpansIsProduct(k - 1, x);
    }
  }

  /**
    Bookkeeping of one client's window. `m` failures were recorded, `rounds` lockouts that began
    in it ran out in it. A lockout pending at the start may run out for free.
  */
  ghost predicate Tally(l: Limits, start: State, s: State, client: string,
                        m: int, rounds: nat, since: real, now: real)
  {
    var pending := client in start.locked;
    if pending && rounds == 0 && client in s.locked && m == 0 then true
    else
      && m == Rounds(rounds, l.threshold) + Fails(s, client) - (if pending then 0 else Fails(start, client))
      && since + Spans(rounds, l.lockout) <= now
      && (client in s.locked ==> since + Spans(rounds + 1, l.lockout) <= s.locked[client])
  }

  lemma TallyStays(l: Limits, start: State, s: State, t: State, client: string,
                   m: int, rounds: nat, since: real, now: real, later: real)
    requires Tally(l, start, s, client, m, rounds, since, now) && SameEntries(s, t, client) && now <= later
    ensures Tally(l, start, t, client, m, rounds, since, later)
  {
  }

  /** `is_locked` on the client: a lockout that began in the window and has run out closes a round. */
  lemma TallyUnlock(l: Limits, start: State, s: State, client: string, read: real,
                    m: int, rounds: nat, since: real, now: real)
    returns (rounds': nat)
    requires LockoutOk(l, start) && LockoutOk(l, s) && l.threshold >= 1
    requires Tally(l, start, s, client, m, rounds, since, now) && since <= now <= read
    ensures Tally(l, start, IsLockedStep(s, client, read).1, client, m, rounds', since, read)
  {
    assert client in s.locked <==> Fails(s, client) == l.threshold;
    assert client in start.locked <==> Fails(start, client) == l.threshold;
    var free := client in start.locked && rounds == 0 && m == 0;
    rounds' := if client in s.locked && read >= s.locked[client] && !free then rounds + 1 else rounds;
  }

  lemma TallyFailure(l: Limits, start: State, s: State, client: string, read: real,
                     m: int, rounds: nat, since: real, now: real)
    requires client !in s.locked && l.lockout > 0.0
    requires Tally(l, start, s, client, m, rounds, since, now) && now <= read
    ensures Tally(l, start, FailureStep(l, s, client, read), client, m + 1, rounds, since, now)
  {
  }

  /** What a request does to a client's two entries. */
  lemma EntriesAfter(cfg: Settings, s: State, client: string, r: Request)
    ensures var (response, s') := GuardStep(cfg, s, r);
            var (isLocked, s1) := IsLockedStep(s, client, r.lockRead);
            if r.client != client || IsExempt(r.path) then SameEntries(s, s', client)
            else if response.Unauthorized? then
              !isLocked && SameEntries(FailureStep(cfg.limits, s1, client, r.failRead), s', client)
            else response.Authorized? || SameEntries(s1, s', client)
  {
  }

  /** One request of the window that is not a success of the client: the next tally. */
  lemma TallyStep(cfg: Settings, start: State, s: State, client: string, r: Request,
                  m: int, rounds: nat, since: real, now: real)
    returns (rounds': nat)
    requires cfg.limits.threshold >= 1 && cfg.limits.lockout > 0.0
    requires LockoutOk(cfg.limits, start) && LockoutOk(cfg.limits, s)
    requires Tally(cfg.limits, start, s, client, m, rounds, since, now)
    requires since <= now <= r.lockRead <= r.failRead
    requires r.client == client ==> !GuardStep(cfg, s, r).0.Authorized?
    ensures var (response, s') := GuardStep(cfg, s, r);
            var failed := if r.client == client && response.Unauthorized? then 1 else 0;
            Tally(cfg.limits, start, s', client, m + failed, rounds', since, r.lockRead)
  {
    var l := cfg.limits;
    var (response, s') := GuardStep(cfg, s, r);
    EntriesAfter(cfg, s, client, r);
    if r.client != client || IsExempt(r.path) {
      rounds' := rounds;
      TallyStays(l, start, s, s', client, m, rounds, since, now, r.lockRead);
    } else {
      var s1 := IsLockedStep(s, client, r.lockRead).1;
      rounds' := TallyUnlock(l, start, s, client, r.lockRead, m, rounds, since, now);
      if response.Unauthorized? {
        TallyFailure(l, start, s1, client, r.failRead, m, rounds', since, r.lockRead);
        TallyStays(l, start, FailureStep(l, s1, client, r.failRead), s', client,
                   m + 1, rounds', since, r.lockRead, r.lockRead);
      } else {
        TallyStays(l, start, s1, s', client, m, rounds', since, r.lockRead, r.lockRead);
      }
    }
  }

  lemma CountLast(rs: seq<Request>, responses: seq<Response>, r: Request, x: Response,
                  client: string, response: Response, i: nat)
    requires |responses| == |rs| && i <= |rs|
    ensures Count(rs + [r], responses + [x], client, response, i)
            == Count(rs, responses, client, response, i) + (if r.client == client && x == response then 1 else 0)
  {
    assert (rs + [r])[..|rs|] == rs && (responses + [x])[..|rs|] == responses;
  }

  lemma RunLast(cfg: Settings, t: Trace, rs: seq<Request>)
    requires rs != []
    ensures var before, r := RunFrom(cfg, t, rs[..|rs| - 1]), rs[|rs| - 1];
            && rs == rs[..|rs| - 1] + [r]
            && RunFrom(cfg, t, rs).responses == before.responses + [GuardStep(cfg, before.state, r).0]
            && RunFrom(cfg, t, rs).state == GuardStep(cfg, before.state, r).1
  {
  }

  lemma {:induction false} OneResponseEach(cfg: Settings, rs: seq<Request>)
    ensures |RunFrom(cfg, FRESH, rs).responses| == |rs|
  {
    if rs != [] {
      OneResponseEach(cfg, rs[..|rs| - 1]);
    }
  }

  /** From request `i` to the end: all at readings from `since` on, and no success of the client. */
  ghost predicate FailingWindow(cfg: Settings, rs: seq<Request>, i: nat, client: string, since: real) {
    && i <= |rs|
    && (forall k :: i <= k < |rs| ==> since <= rs[k].lockRead)
    && |RunFrom(cfg, FRESH, rs).responses| == |rs|
    && Count(rs, RunFrom(cfg, FRESH, rs).responses, client, Authorized, i) == 0
  }

  lemma ShorterWindow(cfg: Settings, rs: seq<Request>, i: nat, client: string, since: real)
    requires FailingWindow(cfg, rs, i, client, since) && i < |rs|
    ensures var before, r := rs[..|rs| - 1], rs[|rs| - 1];
            var t := RunFrom(cfg, FRESH, before);
            var x := GuardStep(cfg, t.state, r).0;
            && FailingWindow(cfg, before, i, client, since)
            && (r.client == client ==> !x.Authorized?)
            && Count(rs, RunFrom(cfg, FRESH, rs).responses, client, Unauthorized, i)
               == Count(before, t.responses, client, Unauthorized, i)
                  + (if r.client == client && x.Unauthorized? then 1 else 0)
  {
    var before, r := rs[..|rs| - 1], rs[|rs| - 1];
    var s, responses := RunFrom(cfg, FRESH, before).state, RunFrom(cfg, FRESH, before).responses;
    OneResponseEach(cfg, before);
    RunLast(cfg, FRESH, rs);
    CountLast(before, responses, r, GuardStep(cfg, s, r).0, client, Authorized, i);
    CountLast(before, responses, r, GuardStep(cfg, s, r).0, client, Unauthorized, i);
  }

  /** The tally of the window from request `i` to the end of the run. */
  ghost predicate WindowTally(cfg: Settings, rs: seq<Request>, i: nat, client: string, since: real, rounds: nat)
    requires i <= |rs| && |RunFrom(cfg, FRESH, rs).responses| == |rs|
  {
    Tally(cfg.limits, RunFrom(cfg, FRESH, rs[..i]).state, RunFrom(cfg, FRESH, rs).state, client,
          Count(rs, RunFrom(cfg, FRESH, rs).responses, client, Unauthorized, i), rounds,
          since, if |rs| == i then since else rs[|rs| - 1].lockRead)
  }

  lemma WindowTallyGrows(cfg: Settings, rs: seq<Request>, i: nat, client: string, since: real, rounds: nat)
    returns (rounds': nat)
    requires cfg.limits.threshold >= 1 && cfg.limits.lockout > 0.0 && Monotone(rs)
    requires FailingWindow(cfg, rs, i, client, since) && i < |rs|
    requires FailingWindow(cfg, rs[..|rs| - 1], i, client, since)
    requires WindowTally(cfg, rs[..|rs| - 1], i, client, since, rounds)
    ensures WindowTally(cfg, rs, i, client, since, rounds')
  {
    var before, r := rs[..|rs| - 1], rs[|rs| - 1];
    var start, s := RunFrom(cfg, FRESH, rs[..i]).state, RunFrom(cfg, FRESH, before).state;
    var m := Count(before, RunFrom(cfg, FRESH, before).responses, client, Unauthorized, i);
    var now := if |before| == i then since else before[|before| - 1].lockRead;
    assert before[..i] == rs[..i];
    ShorterWindow(cfg, rs, i, client, since);
    EveryRunIsLockoutOk(cfg, rs[..i]);
    EveryRunIsLockoutOk(cfg, before);
    rounds' := TallyStep(cfg, start, s, client, r, m, rounds, since, now);
  }

  lemma {:induction false} TallyWindow(cfg: Settings, rs: seq<Request>, i: nat, client: string, since: real)
    returns (rounds: nat)
    requires cfg.limits.threshold >= 1 && cfg.limits.lockout > 0.0
    requires Monotone(rs) && FailingWindow(cfg, rs, i, client, since)
    ensures WindowTally(cfg, rs, i, client, since, rounds)
    decreases |rs|
  {
    if |rs| == i {
      assert rs[..i] == rs;
      rounds := 0;
    } else {
      ShorterWindow(cfg, rs, i, client, since);
      rounds := TallyWindow(cfg, rs[..|rs| - 1], i, client, since);
      rounds := WindowTallyGrows(cfg, rs, i, client, since, rounds);
    }
  }

  /**
    In a window of length `w` without a success of the client, at most `threshold * (floor(w / lockout) + 1)`
    of its failures are recorded.
  */
  lemma FailuresAreBounded(cfg: Settings, rs: seq<Request>, i: nat, client: string, since: real, w: real)
    requires cfg.limits.threshold >= 1 && cfg.limits.lockout > 0.0 && w >= 0.0
    requires Monotone(rs) && FailingWindow(cfg, rs, i, client, since)
    requires forall k :: i <= k < |rs| ==> rs[k].lockRead <= since + w
    ensures Count(rs, RunFrom(cfg, FRESH, rs).responses, client, Unauthorized, i)
            <= cfg.limits.threshold * ((w / cfg.limits.lockout).Floor + 1)
  {
    var rounds := TallyWindow(cfg, rs, i, client, since);
    EveryRunIsLockoutOk(cfg, rs[..i]);
    EveryRunIsLockoutOk(cfg, rs);
    TallyBounds(cfg.limits, RunFrom(cfg, FRESH, rs[..i]).state, RunFrom(cfg, FRESH, rs).state, client,
                Count(rs, RunFrom(cfg, FRESH, rs).responses, client, Unauthorized, i), rounds,
                since, if |rs| == i then since else rs[|rs| - 1].lockRead, w);
  }

  /** What the account of a window says about its failures. */
  lemma TallyBounds(l: Limits, start: State, s: State, client: string,
                    m: int, rounds: nat, since: real, now: real, w: real)
    requires l.threshold >= 1 && l.lockout > 0.0 && LockoutOk(l, start) && LockoutOk(l, s)
    requires Tally(l, start, s, client, m, rounds, since, now) && now <= since + w && w >= 0.0
    ensures m <= l.threshold * ((w / l.lockout).Floor + 1)
  {
    assert Fails(start, client) >= 0 && Fails(s, client) <= l.threshold;
    BoundFromRounds(m, if m > 0 then rounds else 0, l.threshold, l.lockout, w);
  }

  lemma BoundFromRounds(m: int, rounds: nat, threshold: int, lockout: real, w: real)
    requires threshold >= 1 && lockout > 0.0
    requires m <= Rounds(rounds, threshold) + threshold && Spans(rounds, lockout) <= w
    ensures m <= threshold * ((w / lockout).Floor + 1)
  {
    SpansFit(rounds, lockout, w);
    RoundsIsProduct(rounds + 1, threshold);
    ProductGrows(rounds + 1, (w / lockout).Floor + 1, threshold);
  }

  lemma ProductGrows(a: int, b: int, x: int)
    requires a <= b && x >= 0
    ensures a * x <= x * b
  {
  }

  // ------------------------------------------------------------------ requests let through

  /** How many of a client's requests got through at `allow` readings from `s` to `t`. */
  function Through(rs: seq<Request>, responses: seq<Response>, client: string, s: real, t: real): nat
    requires |responses| == |rs|
  {
    if rs == [] then 0
    else
      var n := |rs| - 1;
      Through(rs[..n], responses[..n], client, s, t)
      + (if rs[n].client == client && GotThrough(responses[n]) && s <= rs[n].allowRead <= t then 1 else 0)
  }

  /** The calls of one client that the run has made, none at first. */
  function TakesOf(ledgers: Ledgers, client: string): seq<Take> {
    if client in ledgers then ledgers[client].takes else []
  }

  ghost predicate LedgersOk(l: Limits, s: State, ledgers: Ledgers) {
    BucketsOk(l, s.buckets, ledgers) && AllLawful(l, ledgers)
  }

  ghost predicate AllLawful(l: Limits, ledgers: Ledgers) {
    forall c :: c in ledgers ==> LawfulLedger(l, ledgers[c])
  }

  lemma EnteredIsLawful(l: Limits, ledgers: Ledgers, client: string, now: real, created: real, ok: bool)
    requires AllLawful(l, ledgers) && (ok <==> CanPay(l, LedgerOf(ledgers, client, created), now, 1.0))
    ensures AllLawful(l, Entered(ledgers, client, 1.0, now, created, ok))
  {
    var h := LedgerOf(ledgers, client, created);
    if client in ledgers {
      assert LawfulLedger(l, ledgers[client]);
    }
    ExtendedIsLawful(l, h, now, 1.0, ok);
    var ledgers' := Entered(ledgers, client, 1.0, now, created, ok);
    forall c | c in ledgers' ensures LawfulLedger(l, ledgers'[c]) {
      if c == client {
        assert ledgers'[c] == Extended(h, now, 1.0, ok);
      } else {
        assert ledgers'[c] == ledgers[c];
      }
    }
  }

  lemma AllowKeepsLedgersOk(l: Limits, s: State, s': State, ledgers: Ledgers, r: Request, ok: bool)
    requires LedgersOk(l, s, ledgers) && (ok, s') == AllowStep(l, s, r.client, 1.0, r.allowRead, r.bucketRead)
    ensures LedgersOk(l, s', Entered(ledgers, r.client, 1.0, r.allowRead, r.bucketRead, ok))
  {
    AllowKeepsBucketsOk(l, s, s', ledgers, r.client, 1.0, r.allowRead, r.bucketRead, ok);
    EnteredIsLawful(l, ledgers, r.client, r.allowRead, r.bucketRead, ok);
  }

  lemma StepKeepsLedgersOk(cfg: Settings, s: State, ledgers: Ledgers, r: Request)
    requires LedgersOk(cfg.limits, s, ledgers)
    ensures LedgersOk(cfg.limits, GuardStep(cfg, s, r).1, LedgersAfter(cfg, s, ledgers, r))
  {
    var (isLocked, s1) := IsLockedStep(s, r.client, r.lockRead);
    if !IsExempt(r.path) && !isLocked {
      var (ok, s2) := AllowStep(cfg.limits, s1, r.client, 1.0, r.allowRead, r.bucketRead);
      AllowKeepsLedgersOk(cfg.limits, s1, s2, ledgers, r, ok);
      assert GuardStep(cfg, s, r).1.buckets == s2.buckets;
    }
  }

  lemma {:induction false} EveryRunIsLedgersOk(cfg: Settings, rs: seq<Request>)
    ensures LedgersOk(cfg.limits, RunFrom(cfg, FRESH, rs).state, RunFrom(cfg, FRESH, rs).ledgers)
  {
    if rs != [] {
      var before := RunFrom(cfg, FRESH, rs[..|rs| - 1]);
      EveryRunIsLedgersOk(cfg, rs[..|rs| - 1]);
      StepKeepsLedgersOk(cfg, before.state, before.ledgers, rs[|rs| - 1]);
    }
  }

  /** A request that got through is a granted take of cost 1 and nothing else is granted. */
  lemma TakesAfter(cfg: Settings, s: State, ledgers: Ledgers, r: Request, client: string)
    ensures var takes, takes' := TakesOf(ledgers, client), TakesOf(LedgersAfter(cfg, s, ledgers, r), client);
            var through := r.client == client && GotThrough(GuardStep(cfg, s, r).0);
            || (takes' == takes && !through)
            || takes' == takes + [Take(r.allowRead, 1.0, through)]
  {
  }

  ghost predicate TakesFit(takes: seq<Take>, now: real) {
    && Sorted(takes)
    && (forall i :: 0 <= i < |takes| ==> takes[i].cost == 1.0 && takes[i].now <= now)
  }

  lemma TakesFitAfter(takes: seq<Take>, now: real, t: Take, later: real)
    requires TakesFit(takes, now) && now <= t.now <= later && t.cost == 1.0
    ensures TakesFit(takes + [t], later)
  {
  }

  lemma {:induction false} TakesAreInOrder(cfg: Settings, rs: seq<Request>, client: string)
    requires Monotone(rs)
    ensures var takes := TakesOf(RunFrom(cfg, FRESH, rs).ledgers, client);
            if rs == [] then takes == [] else TakesFit(takes, rs[|rs| - 1].failRead)
  {
    if rs != [] {
      var n := |rs| - 1;
      var before, r := RunFrom(cfg, FRESH, rs[..n]), rs[n];
      var takes := TakesOf(before.ledgers, client);
      TakesAreInOrder(cfg, rs[..n], client);
      TakesAfter(cfg, before.state, before.ledgers, r, client);
      assert TakesFit(takes, r.lockRead);
      TakesFitAfter(takes, r.lockRead, Take(r.allowRead, 1.0, false), r.failRead);
      TakesFitAfter(takes, r.lockRead, Take(r.allowRead, 1.0, true), r.failRead);
    }
  }

  lemma GrantedInLast(takes: seq<Take>, t: Take, from: real, until: real)
    ensures GrantedIn(takes + [t], from, until)
            == GrantedIn(takes, from, until) + (if from <= t.now <= until then Paid(t) else 0.0)
  {
    assert (takes + [t])[..|takes|] == takes;
  }

  lemma GrantedAfter(cfg: Settings, st: State, ledgers: Ledgers, r: Request, client: string, s: real, t: real)
    ensures GrantedIn(TakesOf(LedgersAfter(cfg, st, ledgers, r), client), s, t)
            == GrantedIn(TakesOf(ledgers, client), s, t)
               + (if r.client == client && GotThrough(GuardStep(cfg, st, r).0) && s <= r.allowRead <= t
                  then 1.0 else 0.0)
  {
    TakesAfter(cfg, st, ledgers, r, client);
    GrantedInLast(TakesOf(ledgers, client), Take(r.allowRead, 1.0, false), s, t);
    GrantedInLast(TakesOf(ledgers, client), Take(r.allowRead, 1.0, true), s, t);
  }

  lemma {:induction false} TakesCountThrough(cfg: Settings, rs: seq<Request>, client: string, s: real, t: real)
    requires |RunFrom(cfg, FRESH, rs).responses| == |rs|
    ensures GrantedIn(TakesOf(RunFrom(cfg, FRESH, rs).ledgers, client), s, t)
            == Through(rs, RunFrom(cfg, FRESH, rs).responses, client, s, t) as real
  {
    if rs != [] {
      var n := |rs| - 1;
      var before := RunFrom(cfg, FRESH, rs[..n]);
      TakesCountThrough(cfg, rs[..n], client, s, t);
      GrantedAfter(cfg, before.state, before.ledgers, rs[n], client, s, t);
      assert RunFrom(cfg, FRESH, rs).responses[..n] == before.responses;
    }
  }

  lemma TakesAreBounded(l: Limits, ledgers: Ledgers, client: string, s: real, t: real, now: real)
    requires l.rate >= 0.0 && l.capacity >= 0.0 && s <= t
    requires client in ledgers ==> LawfulLedger(l, ledgers[client])
    requires TakesFit(TakesOf(ledgers, client), now)
    ensures GrantedIn(TakesOf(ledgers, client), s, t) <= Allowance(l, s, t)
  {
    WindowBoundInSeconds(l, LedgerOf(ledgers, client, 0.0), s, t);
  }

  lemma LedgerIsLawful(cfg: Settings, rs: seq<Request>, client: string)
    ensures var ledgers := RunFrom(cfg, FRESH, rs).ledgers;
            client in ledgers ==> LawfulLedger(cfg.limits, ledgers[client])
  {
    EveryRunIsLedgersOk(cfg, rs);
  }

  lemma GrantedIsBounded(cfg: Settings, rs: seq<Request>, client: string, s: real, t: real)
    requires cfg.limits.rate >= 0.0 && cfg.limits.capacity >= 0.0 && s <= t && Monotone(rs)
    ensures GrantedIn(TakesOf(RunFrom(cfg, FRESH, rs).ledgers, client), s, t) <= Allowance(cfg.limits, s, t)
  {
    LedgerIsLawful(cfg, rs, client);
    TakesAreInOrder(cfg, rs, client);
    var now := if rs == [] then 0.0 else rs[|rs| - 1].failRead;
    TakesAreBounded(cfg.limits, RunFrom(cfg, FRESH, rs).ledgers, client, s, t, now);
  }

  /**
    Whatever mix of locked, limited and failing requests of any clients: between two moments `s` and `t`
    at most `capacity + rate * (t - s)` requests of a client reach authentication or a handler.
  */
  lemma ThroughIsBounded(cfg: Settings, rs: seq<Request>, client: string, s: real, t: real)
    requires cfg.limits.rate >= 0.0 && cfg.limits.capacity >= 0.0 && s <= t && Monotone(rs)
    ensures |RunFrom(cfg, FRESH, rs).responses| == |rs|
    ensures Through(rs, RunFrom(cfg, FRESH, rs).responses, client, s, t) as real
            <= Allowance(cfg.limits, s, t)
  {
    OneResponseEach(cfg, rs);
    TakesCountThrough(cfg, rs, client, s, t);
    GrantedIsBounded(cfg, rs, client, s, t);
  }

  // ------------------------------------------------------------------ answers in plain terms

  /** The paths that need neither a free lockout, nor a token of the bucket, nor the client's. */
  predicate NeedsNothing(path: string) {
    || path == "/" || "/health" <= path || "/ui" <= path || "/manifest" <= path || "/sw.js" <= path
    || "/api/ui-config" <= path
  }

  lemma ExemptInPlain(path: string)
    ensures IsExempt(path) <==> NeedsNothing(path)
  {
    assert EXEMPT_PREFIXES[0] == "/health" && EXEMPT_PREFIXES[1] == "/ui" && EXEMPT_PREFIXES[2] == "/manifest";
    assert EXEMPT_PREFIXES[3] == "/sw.js" && EXEMPT_PREFIXES[4] == "/api/ui-config";
  }

  /** The answer to one more request, from the client's lockout and its history of `allow` calls. */
  ghost predicate AnsweredRightly(cfg: Settings, t: Trace, r: Request, x: Response) {
    var locked := r.client in t.state.locked && r.lockRead < t.state.locked[r.client];
    var pays := CanPay(cfg.limits, LedgerOf(t.ledgers, r.client, r.bucketRead), r.allowRead, 1.0);
    var gated := "/api/" <= r.path && cfg.requireToken;
    var through := !NeedsNothing(r.path) && !locked && pays;
    && (x == Exempt <==> NeedsNothing(r.path))
    && (x == LockedOut <==> !NeedsNothing(r.path) && locked)
    && (x == RateLimited <==> !NeedsNothing(r.path) && !locked && !pays)
    && (x == Unauthorized <==> through && gated && !r.tokenOk)
    && (x == Authorized <==> through && gated && r.tokenOk)
    && (x == Unchecked <==> through && !gated)
  }

  lemma StepAnswersRightly(cfg: Settings, t: Trace, r: Request)
    requires BucketsOk(cfg.limits, t.state.buckets, t.ledgers)
    ensures AnsweredRightly(cfg, t, r, GuardStep(cfg, t.state, r).0)
  {
    ExemptInPlain(r.path);
    var s1 := IsLockedStep(t.state, r.client, r.lockRead).1;
    var (ok, s2) := AllowStep(cfg.limits, s1, r.client, 1.0, r.allowRead, r.bucketRead);
    AllowKeepsBucketsOk(cfg.limits, s1, s2, t.ledgers, r.client, 1.0, r.allowRead, r.bucketRead, ok);
  }

  lemma {:induction false} RunOfPrefix(cfg: Settings, rs: seq<Request>, k: nat)
    requires k < |rs|
    ensures |RunFrom(cfg, FRESH, rs).responses| == |rs|
    ensures RunFrom(cfg, FRESH, rs).responses[k] == GuardStep(cfg, RunFrom(cfg, FRESH, rs[..k]).state, rs[k]).0
    decreases |rs|
  {
    var before := rs[..|rs| - 1];
    OneResponseEach(cfg, rs);
    OneResponseEach(cfg, before);
    if k < |before| {
      RunOfPrefix(cfg, before, k);
      assert before[..k] == rs[..k];
    }
  }

  /** In every run, every request gets the answer that the client's lockout, its history and its token call for. */
  lemma EveryAnswerIsRight(cfg: Settings, rs: seq<Request>, k: nat)
    requires k < |rs|
    ensures |RunFrom(cfg, FRESH, rs).responses| == |rs|
    ensures AnsweredRightly(cfg, RunFrom(cfg, FRESH, rs[..k]), rs[k], RunFrom(cfg, FRESH, rs).responses[k])
  {
    RunOfPrefix(cfg, rs, k);
    EveryRunIsLedgersOk(cfg, rs[..k]);
    StepAnswersRightly(cfg, RunFrom(cfg, FRESH, rs[..k]), rs[k]);
  }

  /** So no request without the right token gets to a handler of a gated path. */
  lemma WrongTokenStops(cfg: Settings, rs: seq<Request>, k: nat)
    requires k < |rs| && cfg.requireToken && "/api/" <= rs[k].path && !NeedsNothing(rs[k].path) && !rs[k].tokenOk
    ensures |RunFrom(cfg, FRESH, rs).responses| == |rs|
    ensures var x := RunFrom(cfg, FRESH, rs).responses[k];
            x == Unauthorized || x == LockedOut || x == RateLimited
  {
    EveryAnswerIsRight(cfg, rs, k);
  }

  /** After a right token the client has no failures and no lockout. */
  lemma RightTokenClears(cfg: Settings, t: Trace, r: Request)
    requires GuardStep(cfg, t.state, r).0 == Authorized
    ensures var s' := GuardStep(cfg, t.state, r).1; r.client !in s'.fails && r.client !in s'.locked
  {
  }

  lemma {:induction false} FailuresAreCounted(cfg: Settings, t: Trace, rs: seq<Request>, client: string)
    requires t.responses == [] && client !in t.state.fails && client !in t.state.locked
    ensures |RunFrom(cfg, t, rs).responses| == |rs|
    ensures 0 <= Fails(RunFrom(cfg, t, rs).state, client)
            <= Count(rs, RunFrom(cfg, t, rs).responses, client, Unauthorized, 0)
  {
    if rs != [] {
      var before, r := rs[..|rs| - 1], rs[|rs| - 1];
      var s := RunFrom(cfg, t, before);
      FailuresAreCounted(cfg, t, before, client);
      RunLast(cfg, t, rs);
      CountLast(before, s.responses, r, GuardStep(cfg, s.state, r).0, client, Unauthorized, 0);
      FailsAfter(cfg, s.state, client, r);
    }
  }

  /** One request raises a client's count by at most one, and only by refusing its token. */
  lemma FailsAfter(cfg: Settings, s: State, client: string, r: Request)
    requires Fails(s, client) >= 0
    ensures var (x, s') := GuardStep(cfg, s, r);
            0 <= Fails(s', client) <= Fails(s, client) + if r.client == client && x == Unauthorized then 1 else 0
  {
  }

  /** So the next lockout takes a full threshold of failures from there, whoever else makes requests. */
  lemma LockoutTakesThreshold(cfg: Settings, t: Trace, r: Request, rs: seq<Request>)
    requires cfg.limits.threshold >= 1 && LockoutOk(cfg.limits, t.state)
    requires GuardStep(cfg, t.state, r).0 == Authorized
    ensures var t' := RunFrom(cfg, Trace(GuardStep(cfg, t.state, r).1, t.ledgers, []), rs);
            && |t'.responses| == |rs|
            && (r.client in t'.state.locked ==>
                  Count(rs, t'.responses, r.client, Unauthorized, 0) >= cfg.limits.threshold)
  {
    var start := Trace(GuardStep(cfg, t.state, r).1, t.ledgers, []);
    RightTokenClears(cfg, t, r);
    StepKeepsLockoutOk(cfg, t.state, r);
    RunKeepsLockoutOk(cfg, start, rs);
    FailuresAreCounted(cfg, start, rs, r.client);
  }
}
