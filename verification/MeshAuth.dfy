/**
  Mesh request signing with a collected cache of seen nonces (`boddos/security/auth.py`).

  A `string` stands for a byte string, one `char` a byte. HMAC-SHA256 under the shared key and
  Python's `int` are parameters of the configuration: no result below needs a property of either,
  except where a `requires` names it. Clock readings and time limits are reals.
*/
module MeshAuth {
  import opened Decimal
  import opened Wrappers

  datatype Config = Config(maxSkew: real, nonceTtl: real, hmac: string -> string, toInt: string -> Option<int>)

  datatype Request = Request(headers: map<string, string>, body: string)

  /** What `verify` does: return `(True, "ok")`, return `(False, reason)`, or raise `TypeError`. */
  datatype Outcome = Accepted | Rejected(reason: string) | Raised

  const CACHE_LIMIT: nat := 4096

  /** The lower-case spelling wins; a missing header and an empty one are both falsy. */
  function Header(headers: map<string, string>, lower: string, title: string): string {
    if lower in headers && headers[lower] != "" then headers[lower]
    else if title in headers then headers[title]
    else ""
  }

  function Stamp(r: Request): string { Header(r.headers, "x-boddos-timestamp", "X-Boddos-Timestamp") }
  function Nonce(r: Request): string { Header(r.headers, "x-boddos-nonce", "X-Boddos-Nonce") }
  function Sig(r: Request): string { Header(r.headers, "x-boddos-sig", "X-Boddos-Sig") }

  /** Only a request with all three headers makes `verify` read the clock. */
  predicate HasHeaders(r: Request) {
    Stamp(r) != "" && Nonce(r) != "" && Sig(r) != ""
  }

  function Frame(stamp: string, nonce: string, body: string): string {
    stamp + "." + nonce + "." + body
  }

  function Mac(cfg: Config, stamp: string, nonce: string, body: string): string {
    cfg.hmac(Frame(stamp, nonce, body))
  }

  predicate Ascii(s: string) {
    forall i :: 0 <= i < |s| ==> s[i] < 128 as char
  }

  predicate ValidlySigned(cfg: Config, r: Request) {
    && HasHeaders(r)
    && cfg.toInt(Stamp(r)).Some?
    && Sig(r) == Mac(cfg, Stamp(r), Nonce(r), r.body)
  }

  function Abs(x: real): real {
    if x < 0.0 then -x else x
  }

  predicate InWindow(cfg: Config, stamp: int, now: real) {
    Abs(now - stamp as real) <= cfg.maxSkew
  }

  /** Every test of `verify` that comes before the cache is consulted; `Accepted` means all passed. */
  function Screen(cfg: Config, r: Request, now: real): Outcome {
    if !HasHeaders(r) then Rejected("missing signature headers")
    else match cfg.toInt(Stamp(r))
      case None => Rejected("bad timestamp")
      case Some(stamp) =>
        if !InWindow(cfg, stamp, now) then Rejected("stale timestamp")
        else if !Ascii(Sig(r)) then Raised
        else if Mac(cfg, Stamp(r), Nonce(r), r.body) != Sig(r) then Rejected("bad signature")
        else Accepted
  }

  function Collect(seen: map<string, real>, now: real): map<string, real> {
    if |seen| > CACHE_LIMIT then map k | k in seen && seen[k] >= now :: seen[k] else seen
  }

  function VerifyStep(cfg: Config, seen: map<string, real>, r: Request, now: real): (Outcome, map<string, real>) {
    if Screen(cfg, r, now) != Accepted then (Screen(cfg, r, now), seen)
    else if Nonce(r) in seen then (Rejected("replayed nonce"), seen)
    else (Accepted, Collect(seen, now)[Nonce(r) := now + cfg.nonceTtl])
  }

  // ------------------------------------------------------------------ runs

  datatype Call = Call(req: Request, now: real)

  /** One acceptance: the integer timestamp, the nonce and the reading at which it was accepted. */
  datatype Acceptance = Acceptance(stamp: int, nonce: string, at: real)

  datatype Memory = Memory(seen: map<string, real>, accepted: seq<Acceptance>)

  /** The acceptance a call makes when it passes the screen. */
  function Latest(cfg: Config, c: Call): Acceptance
    requires Screen(cfg, c.req, c.now) == Accepted
  {
    Acceptance(cfg.toInt(Stamp(c.req)).value, Nonce(c.req), c.now)
  }

  function Step(cfg: Config, m: Memory, c: Call): Memory {
    var (outcome, seen') := VerifyStep(cfg, m.seen, c.req, c.now);
    Memory(seen', if outcome == Accepted then m.accepted + [Latest(cfg, c)] else m.accepted)
  }

  /** The cache and the acceptances after any sequence of calls on a fresh `MeshAuth`. */
  function Run(cfg: Config, calls: seq<Call>): Memory {
    if calls == [] then Memory(map[], [])
    else Step(cfg, Run(cfg, calls[..|calls| - 1]), calls[|calls| - 1])
  }

  /** What the last of the calls returned. */
  function LastOutcome(cfg: Config, calls: seq<Call>): Outcome
    requires calls != []
  {
    var c := calls[|calls| - 1];
    VerifyStep(cfg, Run(cfg, calls[..|calls| - 1]).seen, c.req, c.now).0
  }

  /** The clock never reads more than `slack` below any earlier reading. */
  ghost predicate ClockFallsAtMost(calls: seq<Call>, slack: real) {
    forall i, j :: 0 <= i < j < |calls| && HasHeaders(calls[i].req) && HasHeaders(calls[j].req)
      ==> calls[j].now >= calls[i].now - slack
  }

  ghost predicate DistinctAcceptances(accepted: seq<Acceptance>) {
    forall i, j :: 0 <= i < j < |accepted|
      ==> !(accepted[i].stamp == accepted[j].stamp && accepted[i].nonce == accepted[j].nonce)
  }

  function Slack(cfg: Config): real {
    cfg.nonceTtl - 2.0 * cfg.maxSkew
  }

  /**
    Falls of the clock under which nothing is forgotten too early: those within the slack and, when the windows
    around whole seconds leave gaps, those that end in the gap after it.
  */
  predicate Tolerates(cfg: Config, fall: real) {
    fall <= Slack(cfg) || fall < Slack(cfg).Floor as real + 1.0 - 2.0 * cfg.maxSkew
  }

  /** The clock never falls, from any reading to any later one, by more than is tolerated. */
  ghost predicate ClockTolerated(cfg: Config, calls: seq<Call>) {
    forall i, j :: 0 <= i < j < |calls| && HasHeaders(calls[i].req) && HasHeaders(calls[j].req)
      ==> Tolerates(cfg, calls[i].now - calls[j].now)
  }

  lemma FallsTolerated(cfg: Config, calls: seq<Call>, slack: real)
    requires ClockFallsAtMost(calls, slack) && Tolerates(cfg, slack)
    ensures ClockTolerated(cfg, calls)
  {
  }

  // ------------------------------------------------------------------ what every call keeps

  /** Some acceptance read the clock past `t`. */
  ghost predicate ReadPast(accepted: seq<Acceptance>, t: real) {
    exists b :: b in accepted && t < b.at
  }

  /** Still cached under its own expiry, or a later acceptance read a clock past that expiry. */
  ghost predicate Remembered(cfg: Config, m: Memory, a: Acceptance) {
    || (a.nonce in m.seen && m.seen[a.nonce] == a.at + cfg.nonceTtl)
    || ReadPast(m.accepted, a.at + cfg.nonceTtl)
  }

  ghost predicate Accounted(cfg: Config, m: Memory, k: string, expiry: real) {
    exists a :: a in m.accepted && a.nonce == k && expiry == a.at + cfg.nonceTtl
  }

  ghost predicate MemoryOk(cfg: Config, m: Memory) {
    && (forall a :: a in m.accepted ==> InWindow(cfg, a.stamp, a.at))
    && (forall a :: a in m.accepted ==> Remembered(cfg, m, a))
    && (forall k :: k in m.seen ==> Accounted(cfg, m, k, m.seen[k]))
  }

  lemma AcceptingKeepsMemoryOk(cfg: Config, m: Memory, m': Memory, latest: Acceptance)
    requires MemoryOk(cfg, m) && latest.nonce !in m.seen && InWindow(cfg, latest.stamp, latest.at)
    requires m'.seen == Collect(m.seen, latest.at)[latest.nonce := latest.at + cfg.nonceTtl]
    requires m'.accepted == m.accepted + [latest]
    ensures MemoryOk(cfg, m')
  {
    forall a | a in m'.accepted ensures Remembered(cfg, m', a) {
      if a in m.accepted {
        assert Remembered(cfg, m, a);
        if ReadPast(m.accepted, a.at + cfg.nonceTtl) {
          var b :| b in m.accepted && a.at + cfg.nonceTtl < b.at;
          assert b in m'.accepted;
        } else if a.nonce !in Collect(m.seen, latest.at) {
          assert latest in m'.accepted;
        }
      }
    }
    forall k | k in m'.seen ensures Accounted(cfg, m', k, m'.seen[k]) {
      if k == latest.nonce {
        assert latest in m'.accepted;
      } else {
        assert Accounted(cfg, m, k, m.seen[k]);
        var a :| a in m.accepted && a.nonce == k && m.seen[k] == a.at + cfg.nonceTtl;
        assert a in m'.accepted;
      }
    }
  }

  /** Some call of the run read the clock at `t`. */
  ghost predicate ReadAt(calls: seq<Call>, t: real) {
    exists i :: 0 <= i < |calls| && HasHeaders(calls[i].req) && calls[i].now == t
  }

  /** Some validly signed call of the run carried this timestamp and nonce. */
  ghost predicate SignedIn(cfg: Config, calls: seq<Call>, stamp: int, nonce: string) {
    exists i :: 0 <= i < |calls|
                && ValidlySigned(cfg, calls[i].req) && Nonce(calls[i].req) == nonce
                && cfg.toInt(Stamp(calls[i].req)) == Some(stamp)
  }

  lemma {:induction false} RunIsMemoryOk(cfg: Config, calls: seq<Call>)
    ensures MemoryOk(cfg, Run(cfg, calls))
  {
    if calls != [] {
      var m, c := Run(cfg, calls[..|calls| - 1]), calls[|calls| - 1];
      RunIsMemoryOk(cfg, calls[..|calls| - 1]);
      if LastOutcome(cfg, calls) == Accepted {
        AcceptingKeepsMemoryOk(cfg, m, Step(cfg, m, c), Latest(cfg, c));
      }
    }
  }

  /** Every acceptance goes back to a validly signed call that read the clock then. */
  lemma {:induction false} AcceptancesAreCalls(cfg: Config, calls: seq<Call>, a: Acceptance)
    requires a in Run(cfg, calls).accepted
    ensures ReadAt(calls, a.at) && SignedIn(cfg, calls, a.stamp, a.nonce)
  {
    var before, c := calls[..|calls| - 1], calls[|calls| - 1];
    if a in Run(cfg, before).accepted {
      AcceptancesAreCalls(cfg, before, a);
      var i :| 0 <= i < |before| && HasHeaders(before[i].req) && before[i].now == a.at;
      assert calls[i] == before[i];
      var j :| 0 <= j < |before| && ValidlySigned(cfg, before[j].req)
               && Nonce(before[j].req) == a.nonce && cfg.toInt(Stamp(before[j].req)) == Some(a.stamp);
      assert calls[j] == before[j];
    } else {
      assert a == Latest(cfg, c) && ValidlySigned(cfg, c.req);
    }
  }

  /** A reading a tolerated fall above `now` is not past the expiry of an acceptance whose timestamp `now` accepts. */
  lemma NotCollectedYet(cfg: Config, stamp: int, at: real, now: real, other: int, otherAt: real)
    requires InWindow(cfg, stamp, at) && InWindow(cfg, stamp, now) && InWindow(cfg, other, otherAt)
    requires Tolerates(cfg, otherAt - now)
    ensures otherAt <= at + cfg.nonceTtl
  {
    var gap := Slack(cfg).Floor;
    assert at + cfg.nonceTtl < otherAt ==> other > stamp + gap;
  }

  /** Under a tolerated clock, no earlier acceptance read past the expiry of one under the current timestamp. */
  lemma NoneReadPast(cfg: Config, calls: seq<Call>, a: Acceptance)
    requires calls != [] && ClockTolerated(cfg, calls) && HasHeaders(calls[|calls| - 1].req)
    requires InWindow(cfg, a.stamp, a.at) && InWindow(cfg, a.stamp, calls[|calls| - 1].now)
    ensures !ReadPast(Run(cfg, calls[..|calls| - 1]).accepted, a.at + cfg.nonceTtl)
  {
    var before, now := calls[..|calls| - 1], calls[|calls| - 1].now;
    RunIsMemoryOk(cfg, before);
    forall b | b in Run(cfg, before).accepted ensures b.at <= a.at + cfg.nonceTtl {
      AcceptancesAreCalls(cfg, before, b);
      var i :| 0 <= i < |before| && HasHeaders(before[i].req) && before[i].now == b.at;
      assert calls[i] == before[i];
      NotCollectedYet(cfg, a.stamp, a.at, now, b.stamp, b.at);
    }
  }

  /**
    A request that passes the screen carries a timestamp so recent that any acceptance under that
    very timestamp is still in the cache, as long as the clock has not fallen further than tolerated.
  */
  lemma SameStampIsCached(cfg: Config, calls: seq<Call>, a: Acceptance)
    requires calls != [] && ClockTolerated(cfg, calls)
    requires a in Run(cfg, calls[..|calls| - 1]).accepted
    requires Screen(cfg, calls[|calls| - 1].req, calls[|calls| - 1].now) == Accepted
    requires cfg.toInt(Stamp(calls[|calls| - 1].req)) == Some(a.stamp)
    ensures a.nonce in Run(cfg, calls[..|calls| - 1]).seen
  {
    var before := calls[..|calls| - 1];
    RunIsMemoryOk(cfg, before);
    assert Remembered(cfg, Run(cfg, before), a);
    NoneReadPast(cfg, calls, a);
  }

  // ------------------------------------------------------------------ main results

  /** No (timestamp, nonce) pair is accepted twice, whatever is collected in between. */
  lemma {:induction false} NoDoubleAcceptance(cfg: Config, calls: seq<Call>)
    requires ClockTolerated(cfg, calls)
    ensures DistinctAcceptances(Run(cfg, calls).accepted)
  {
    if calls != [] {
      var before := calls[..|calls| - 1];
      var c := calls[|calls| - 1];
      NoDoubleAcceptance(cfg, before);
      if LastOutcome(cfg, calls) == Accepted {
        forall a | a in Run(cfg, before).accepted && cfg.toInt(Stamp(c.req)) == Some(a.stamp)
          ensures a.nonce != Nonce(c.req)
        {
          SameStampIsCached(cfg, calls, a);
        }
      }
    }
  }

  function Nonces(accepted: seq<Acceptance>): set<string> {
    set a | a in accepted :: a.nonce
  }

  /** The nonces a verifier that never forgets would hold, after the same calls. */
  function KeptNonces(cfg: Config, calls: seq<Call>): set<string> {
    if calls == [] then {}
    else
      var kept := KeptNonces(cfg, calls[..|calls| - 1]);
      var c := calls[|calls| - 1];
      if KeepingOutcome(cfg, kept, c) == Accepted then kept + {Nonce(c.req)} else kept
  }

  function KeepingOutcome(cfg: Config, kept: set<string>, c: Call): Outcome {
    if Screen(cfg, c.req, c.now) != Accepted then Screen(cfg, c.req, c.now)
    else if Nonce(c.req) in kept then Rejected("replayed nonce")
    else Accepted
  }

  ghost predicate OneStampPerNonce(cfg: Config, calls: seq<Call>) {
    forall i, j :: 0 <= i < |calls| && 0 <= j < |calls|
      && ValidlySigned(cfg, calls[i].req) && ValidlySigned(cfg, calls[j].req)
      && Nonce(calls[i].req) == Nonce(calls[j].req)
      ==> cfg.toInt(Stamp(calls[i].req)) == cfg.toInt(Stamp(calls[j].req))
  }

  /**
    Collection is invisible: on every call of such a run the collecting verifier answers, reason
    included, as one that never forgets. The nonces the latter keeps are the accepted ones.
  */
  lemma {:induction false} CollectionIsInvisible(cfg: Config, calls: seq<Call>)
    requires ClockTolerated(cfg, calls) && OneStampPerNonce(cfg, calls)
    ensures KeptNonces(cfg, calls) == Nonces(Run(cfg, calls).accepted)
    ensures calls != [] ==>
              LastOutcome(cfg, calls) == KeepingOutcome(cfg, KeptNonces(cfg, calls[..|calls| - 1]), calls[|calls| - 1])
  {
    if calls != [] {
      var before := calls[..|calls| - 1];
      CollectionIsInvisible(cfg, before);
      CacheAnswersForAllNonces(cfg, calls);
      CachedIsAccepted(cfg, before);
      assert Run(cfg, calls) == Step(cfg, Run(cfg, before), calls[|calls| - 1]);
    }
  }

  lemma CachedIsAccepted(cfg: Config, calls: seq<Call>)
    ensures forall k :: k in Run(cfg, calls).seen ==> k in Nonces(Run(cfg, calls).accepted)
  {
    var m := Run(cfg, calls);
    RunIsMemoryOk(cfg, calls);
    forall k | k in m.seen ensures k in Nonces(m.accepted) {
      assert Accounted(cfg, m, k, m.seen[k]);
    }
  }

  /** When the last call passes the screen, its nonce is cached if it was ever accepted. */
  lemma CacheAnswersForAllNonces(cfg: Config, calls: seq<Call>)
    requires ClockTolerated(cfg, calls) && OneStampPerNonce(cfg, calls) && calls != []
    ensures var m, c := Run(cfg, calls[..|calls| - 1]), calls[|calls| - 1];
            Screen(cfg, c.req, c.now) == Accepted && Nonce(c.req) in Nonces(m.accepted) ==> Nonce(c.req) in m.seen
  {
    var before, c := calls[..|calls| - 1], calls[|calls| - 1];
    var m := Run(cfg, before);
    if Screen(cfg, c.req, c.now) == Accepted && Nonce(c.req) in Nonces(m.accepted) {
      var a :| a in m.accepted && a.nonce == Nonce(c.req);
      AcceptancesAreCalls(cfg, before, a);
      var i :| 0 <= i < |before| && ValidlySigned(cfg, before[i].req)
               && Nonce(before[i].req) == a.nonce && cfg.toInt(Stamp(before[i].req)) == Some(a.stamp);
      assert calls[i] == before[i] && ValidlySigned(cfg, calls[i].req) && ValidlySigned(cfg, c.req);
      SameStampIsCached(cfg, calls, a);
    }
  }

  // ------------------------------------------------------------------ size of the cache

  /** The acceptances that read the clock at or after `t`. */
  function Since(accepted: seq<Acceptance>, t: real): seq<Acceptance> {
    if accepted == [] then []
    else
      var a := accepted[|accepted| - 1];
      Since(accepted[..|accepted| - 1], t) + (if a.at >= t then [a] else [])
  }

  lemma {:induction false} SinceSelects(accepted: seq<Acceptance>, t: real)
    ensures forall a :: a in Since(accepted, t) <==> a in accepted && a.at >= t
  {
    if accepted != [] {
      var before := accepted[..|accepted| - 1];
      SinceSelects(before, t);
      assert accepted == before + [accepted[|accepted| - 1]];
    }
  }

  lemma {:induction false} FewerNoncesThanAcceptances(accepted: seq<Acceptance>)
    ensures |Nonces(accepted)| <= |accepted|
  {
    var nonces := Nonces(accepted);
    if accepted != [] {
      var before, last := accepted[..|accepted| - 1], accepted[|accepted| - 1];
      FewerNoncesThanAcceptances(before);
      assert accepted == before + [last];
      assert nonces == Nonces(before) + {last.nonce};
    } else {
      assert nonces == {};
    }
  }

  /** What a collection at reading `t` leaves came from acceptances not older than `t - nonceTtl`. */
  lemma CollectedSize(cfg: Config, m: Memory, t: real)
    requires MemoryOk(cfg, m) && |m.seen| > CACHE_LIMIT
    ensures |Collect(m.seen, t)| <= |Since(m.accepted, t - cfg.nonceTtl)|
  {
    var recent := Since(m.accepted, t - cfg.nonceTtl);
    var nonces := Nonces(recent);
    SinceSelects(m.accepted, t - cfg.nonceTtl);
    forall k | k in Collect(m.seen, t).Keys ensures k in nonces {
      assert Accounted(cfg, m, k, m.seen[k]);
      var a :| a in m.accepted && a.nonce == k && m.seen[k] == a.at + cfg.nonceTtl;
      assert a in recent;
    }
    SubsetSize(Collect(m.seen, t).Keys, nonces);
    FewerNoncesThanAcceptances(recent);
  }

  /** At most 4097 nonces, or at most the last acceptance and the earlier ones within `nonceTtl` of it. */
  predicate SizeBounded(cfg: Config, m: Memory) {
    || |m.seen| <= 4097
    || (m.accepted != [] &&
        var before, last := m.accepted[..|m.accepted| - 1], m.accepted[|m.accepted| - 1];
        |m.seen| <= 1 + |Since(before, last.at - cfg.nonceTtl)|)
  }

  /** The bound holds after any calls under any clock. */
  lemma {:induction false} CacheSize(cfg: Config, calls: seq<Call>)
    ensures SizeBounded(cfg, Run(cfg, calls))
  {
    if calls != [] {
      var before, c := calls[..|calls| - 1], calls[|calls| - 1];
      CacheSize(cfg, before);
      if LastOutcome(cfg, calls) == Accepted {
        RunIsMemoryOk(cfg, before);
        AcceptingSize(cfg, Run(cfg, before), Run(cfg, calls), Latest(cfg, c));
      }
    }
  }

  lemma GrowsByOne(seen: map<string, real>, k: string, expiry: real)
    ensures |seen[k := expiry]| <= |seen| + 1
  {
    assert seen[k := expiry].Keys == seen.Keys + {k};
    assert |seen.Keys + {k}| <= |seen.Keys| + 1;
  }

  lemma AcceptingSize(cfg: Config, m: Memory, m': Memory, latest: Acceptance)
    requires MemoryOk(cfg, m)
    requires m'.seen == Collect(m.seen, latest.at)[latest.nonce := latest.at + cfg.nonceTtl]
    requires m'.accepted == m.accepted + [latest]
    ensures SizeBounded(cfg, m')
  {
    assert m'.accepted[..|m'.accepted| - 1] == m.accepted;
    GrowsByOne(Collect(m.seen, latest.at), latest.nonce, latest.at + cfg.nonceTtl);
    if |m.seen| > CACHE_LIMIT {
      CollectedSize(cfg, m, latest.at);
    }
  }

  // ------------------------------------------------------------------ signing

  /** Python's `int` of a float truncates toward zero. */
  function Truncate(now: real): int {
    if now < 0.0 then -((-now).Floor) else now.Floor
  }

  function Sign(cfg: Config, body: string, now: real, nonce: string): map<string, string> {
    var stamp := StrInt(Truncate(now));
    map["X-Boddos-Timestamp" := stamp, "X-Boddos-Nonce" := nonce, "X-Boddos-Sig" := Mac(cfg, stamp, nonce, body)]
  }

  lemma StrIntIsNotEmpty(n: int)
    ensures StrInt(n) != ""
  {
    StrReadsBack(if n < 0 then -n else n);
  }

  /** The key gives usable signatures, and the timestamps `sign` prints are read back by `verify`. */
  ghost predicate Usable(cfg: Config) {
    && (forall s :: cfg.hmac(s) != "" && Ascii(cfg.hmac(s)))
    && (forall n :: cfg.toInt(StrInt(n)) == Some(n))
  }

  /** A signed request is accepted exactly when the receiver's clock is in the window and the nonce is new to it. */
  lemma SignedIsAccepted(cfg: Config, body: string, nonce: string, sent: real, seen: map<string, real>, now: real)
    requires nonce != ""
    requires Usable(cfg)
    ensures var r := Request(Sign(cfg, body, sent, nonce), body);
      var t := Truncate(sent) as real;
      var current := t - cfg.maxSkew <= now <= t + cfg.maxSkew;
      && ValidlySigned(cfg, r) && Nonce(r) == nonce
      && (VerifyStep(cfg, seen, r, now).0 == Accepted <==> current && nonce !in seen)
      && (VerifyStep(cfg, seen, r, now).0 != Accepted ==>
            VerifyStep(cfg, seen, r, now).0 == Rejected(if current then "replayed nonce" else "stale timestamp"))
  {
    StrIntIsNotEmpty(Truncate(sent));
    var r := Request(Sign(cfg, body, sent, nonce), body);
    assert "x-boddos-timestamp" !in r.headers && "x-boddos-nonce" !in r.headers && "x-boddos-sig" !in r.headers;
  }

  // ------------------------------------------------------------------ verify and sign in plain terms

  /** The value of a header under either spelling, the lower-case one first; an empty one counts as missing. */
  predicate Carries(headers: map<string, string>, lower: string, title: string, value: string) {
    && value != ""
    && if lower in headers && headers[lower] != "" then headers[lower] == value
       else title in headers && headers[title] == value
  }

  predicate Lacks(headers: map<string, string>, lower: string, title: string) {
    && (lower in headers ==> headers[lower] == "")
    && (title in headers ==> headers[title] == "")
  }

  /** A request is refused for its headers exactly when one of the three is missing under both spellings. */
  lemma MissingHeadersInPlain(cfg: Config, seen: map<string, real>, r: Request, now: real)
    ensures VerifyStep(cfg, seen, r, now).0 == Rejected("missing signature headers") <==>
            || Lacks(r.headers, "x-boddos-timestamp", "X-Boddos-Timestamp")
            || Lacks(r.headers, "x-boddos-nonce", "X-Boddos-Nonce")
            || Lacks(r.headers, "x-boddos-sig", "X-Boddos-Sig")
  {
  }

  lemma HeaderIsCarried(headers: map<string, string>, lower: string, title: string, value: string)
    requires Carries(headers, lower, title, value)
    ensures Header(headers, lower, title) == value
  {
  }

  /** Every other answer, its reason, and the cache it leaves. */
  lemma VerifyInPlain(cfg: Config, seen: map<string, real>, r: Request, now: real,
                      ts: string, nonce: string, sig: string)
    requires Carries(r.headers, "x-boddos-timestamp", "X-Boddos-Timestamp", ts)
    requires Carries(r.headers, "x-boddos-nonce", "X-Boddos-Nonce", nonce)
    requires Carries(r.headers, "x-boddos-sig", "X-Boddos-Sig", sig)
    ensures var (outcome, seen') := VerifyStep(cfg, seen, r, now);
            var parsed := cfg.toInt(ts);
            var current := parsed.Some?
                           && parsed.value as real - cfg.maxSkew <= now <= parsed.value as real + cfg.maxSkew;
            var ascii := forall i :: 0 <= i < |sig| ==> sig[i] < 128 as char;
            var genuine := sig == cfg.hmac(ts + "." + nonce + "." + r.body);
            && (outcome == Rejected("bad timestamp") <==> parsed.None?)
            && (outcome == Rejected("stale timestamp") <==> parsed.Some? && !current)
            && (outcome == Raised <==> current && !ascii)
            && (outcome == Rejected("bad signature") <==> current && ascii && !genuine)
            && (outcome == Rejected("replayed nonce") <==> current && ascii && genuine && nonce in seen)
            && (outcome == Accepted <==> current && ascii && genuine && nonce !in seen)
            && (outcome != Accepted ==> seen' == seen)
            && (outcome == Accepted ==>
                  && nonce in seen' && seen'[nonce] == now + cfg.nonceTtl
                  && (forall k :: k in seen' && k != nonce ==> k in seen && seen'[k] == seen[k])
                  && (forall k :: k in seen ==> (k in seen' <==> |seen| <= 4096 || now <= seen[k])))
  {
    HeaderIsCarried(r.headers, "x-boddos-timestamp", "X-Boddos-Timestamp", ts);
    HeaderIsCarried(r.headers, "x-boddos-nonce", "X-Boddos-Nonce", nonce);
    HeaderIsCarried(r.headers, "x-boddos-sig", "X-Boddos-Sig", sig);
  }

  /** `sign` dates a request with the whole seconds of its clock, and signs that, the nonce and the body. */
  lemma SignInPlain(cfg: Config, body: string, sent: real, nonce: string, t: int)
    requires if sent >= 0.0 then t as real <= sent < t as real + 1.0 else t as real - 1.0 < sent <= t as real
    ensures Truncate(sent) == t
    ensures Sign(cfg, body, sent, nonce) ==
            map["X-Boddos-Timestamp" := StrInt(t), "X-Boddos-Nonce" := nonce,
                "X-Boddos-Sig" := cfg.hmac(StrInt(t) + "." + nonce + "." + body)]
  {
  }

  /** So what `sign` makes is accepted exactly within the skew of its second, by a cache without its nonce. */
  lemma SignedInPlain(cfg: Config, body: string, nonce: string, sent: real, seen: map<string, real>, now: real, t: int)
    requires nonce != "" && Usable(cfg)
    requires if sent >= 0.0 then t as real <= sent < t as real + 1.0 else t as real - 1.0 < sent <= t as real
    ensures VerifyStep(cfg, seen, Request(Sign(cfg, body, sent, nonce), body), now).0 == Accepted <==>
            t as real - cfg.maxSkew <= now <= t as real + cfg.maxSkew && nonce !in seen
  {
    SignInPlain(cfg, body, sent, nonce, t);
    SignedIsAccepted(cfg, body, nonce, sent, seen, now);
  }

  /** The signed text determines its parts when timestamp and nonce hold no dot. */
  lemma FrameIsInjective(s1: string, n1: string, b1: string, s2: string, n2: string, b2: string)
    requires '.' !in s1 && '.' !in n1 && '.' !in s2 && '.' !in n2
    requires Frame(s1, n1, b1) == Frame(s2, n2, b2)
    ensures s1 == s2 && n1 == n2 && b1 == b2
  {
    assert Frame(s1, n1, b1) == s1 + ("." + n1 + "." + b1) && Frame(s2, n2, b2) == s2 + ("." + n2 + "." + b2);
    FirstDot(s1, "." + n1 + "." + b1, s2, "." + n2 + "." + b2);
    assert ("." + n1 + "." + b1)[1..] == n1 + ("." + b1) && ("." + n2 + "." + b2)[1..] == n2 + ("." + b2);
    FirstDot(n1, "." + b1, n2, "." + b2);
    assert ("." + b1)[1..] == b1 && ("." + b2)[1..] == b2;
  }

  lemma FirstDot(a1: string, rest1: string, a2: string, rest2: string)
    requires '.' !in a1 && '.' !in a2
    requires rest1 != "" && rest2 != "" && rest1[0] == '.' && rest2[0] == '.'
    requires a1 + rest1 == a2 + rest2
    ensures a1 == a2 && rest1 == rest2
  {
    assert (a1 + rest1)[|a1|] == '.' && (a2 + rest2)[|a2|] == '.';
    assert |a1| == |a2|;
    assert (a1 + rest1)[..|a1|] == a1 && (a2 + rest2)[..|a2|] == a2;
    assert (a1 + rest1)[|a1|..] == rest1 && (a2 + rest2)[|a2|..] == rest2;
  }

  // ------------------------------------------------------------------ the object

  /** The receiver. `calls` is the history of `verify` calls; the cache is what running them leaves. */
  class MeshAuth {
    const cfg: Config
    var seen: map<string, real>
    ghost var calls: seq<Call>

    ghost predicate Valid()
      reads this
    {
      seen == Run(cfg, calls).seen
    }

    constructor (cfg: Config)
      ensures Valid() && this.cfg == cfg && calls == [] && seen == map[]
    {
      this.cfg, seen, calls := cfg, map[], [];
    }

    method Gc(now: real)
      modifies `seen
      ensures seen == Collect(old(seen), now)
    {
      if |seen| > CACHE_LIMIT {
        var todo := seen.Keys;
        while todo != {}
          invariant todo <= old(seen).Keys
          invariant forall k :: k in seen <==> k in old(seen) && (k in todo || old(seen)[k] >= now)
          invariant forall k :: k in seen ==> seen[k] == old(seen)[k]
          decreases todo
        {
          var k :| k in todo;
          todo := todo - {k};
          if seen[k] < now {
            seen := seen - {k};
          }
        }
      }
    }

    method Verify(r: Request, now: real) returns (outcome: Outcome)
      requires Valid()
      modifies this
      ensures Valid() && calls == old(calls) + [Call(r, now)]
      ensures (outcome, seen) == VerifyStep(cfg, old(seen), r, now)
      ensures outcome == LastOutcome(cfg, calls)
    {
      var stamp, nonce, sig := Stamp(r), Nonce(r), Sig(r);
      outcome := Rejected("missing signature headers");
      if stamp != "" && nonce != "" && sig != "" {
        var parsed := cfg.toInt(stamp);
        if parsed.None? {
          outcome := Rejected("bad timestamp");
        } else if Abs(now - parsed.value as real) > cfg.maxSkew {
          outcome := Rejected("stale timestamp");
        } else if !Ascii(sig) {
          outcome := Raised;
        } else if Mac(cfg, stamp, nonce, r.body) != sig {
          outcome := Rejected("bad signature");
        } else if nonce in seen {
          outcome := Rejected("replayed nonce");
        } else {
          Gc(now);
          seen := seen[nonce := now + cfg.nonceTtl];
          outcome := Accepted;
        }
      }
      ghost var before := calls;
      calls := calls + [Call(r, now)];
      assert calls[..|calls| - 1] == before;
    }
  }
}
