/** The clock condition of `MeshAuth.NoDoubleAcceptance` is exact: on any further fall a replay goes through. */
module MeshAuthSlack {
  import opened Decimal
  import opened MeshAuth

  ghost predicate NeverAcceptsTwice(cfg: Config, slack: real) {
    forall calls :: ClockFallsAtMost(calls, slack) ==> DistinctAcceptances(Run(cfg, calls).accepted)
  }

  /** A request signed at the whole second `stamp`, arriving at reading `now`. */
  function Arrival(cfg: Config, stamp: int, nonce: string, now: real): Call {
    Call(Request(Sign(cfg, "", stamp as real, nonce), ""), now)
  }

  /** The memory once a request with a new nonce has been accepted. */
  function Admit(cfg: Config, m: Memory, a: Acceptance): Memory {
    Memory(Collect(m.seen, a.at)[a.nonce := a.at + cfg.nonceTtl], m.accepted + [a])
  }

  lemma ArrivalIsAccepted(cfg: Config, m: Memory, stamp: int, nonce: string, now: real)
    requires Usable(cfg) && nonce != "" && InWindow(cfg, stamp, now) && nonce !in m.seen
    ensures Step(cfg, m, Arrival(cfg, stamp, nonce, now)) == Admit(cfg, m, Acceptance(stamp, nonce, now))
    ensures HasHeaders(Arrival(cfg, stamp, nonce, now).req)
  {
    assert Truncate(stamp as real) == stamp;
    SignedIsAccepted(cfg, "", nonce, stamp as real, m.seen, now);
  }

  lemma RunArrival(cfg: Config, calls: seq<Call>, m: Memory, stamp: int, nonce: string, now: real)
    requires Run(cfg, calls) == m
    requires Usable(cfg) && nonce != "" && InWindow(cfg, stamp, now) && nonce !in m.seen
    ensures Run(cfg, calls + [Arrival(cfg, stamp, nonce, now)]) == Admit(cfg, m, Acceptance(stamp, nonce, now))
  {
    var c := Arrival(cfg, stamp, nonce, now);
    assert (calls + [c])[..|calls|] == calls;
    ArrivalIsAccepted(cfg, m, stamp, nonce, now);
  }

  // ------------------------------------------------------------------ filling the cache

  /** As many different nonces as a replay needs. */
  ghost predicate Fresh(nonces: nat -> string) {
    && (forall k: nat :: k <= CACHE_LIMIT + 2 ==> nonces(k) != "")
    && (forall j: nat, k: nat :: j <= CACHE_LIMIT + 2 && k <= CACHE_LIMIT + 2 && nonces(j) == nonces(k) ==> j == k)
  }

  /** The earliest reading at which a request signed at second `base` is in the window. */
  function Earliest(cfg: Config, base: int): real {
    base as real - cfg.maxSkew
  }

  /** `k` requests with different nonces, signed at second `base` and received on a clock as far behind as allowed. */
  function Flood(cfg: Config, nonces: nat -> string, base: int, k: nat): seq<Call> {
    if k == 0 then [] else Flood(cfg, nonces, base, k - 1) + [Arrival(cfg, base, nonces(k), Earliest(cfg, base))]
  }

  function Early(cfg: Config, nonces: nat -> string, base: int, k: nat): Acceptance {
    Acceptance(base, nonces(k), Earliest(cfg, base))
  }

  /** The memory the flood leaves. */
  function Flooded(cfg: Config, nonces: nat -> string, base: int, k: nat): Memory {
    if k == 0 then Memory(map[], []) else Admit(cfg, Flooded(cfg, nonces, base, k - 1), Early(cfg, nonces, base, k))
  }

  /** Nonces 1 to `k`, cached and accepted from early arrivals in that order. */
  ghost predicate Full(cfg: Config, nonces: nat -> string, base: int, m: Memory, k: nat) {
    && |m.seen| == k && |m.accepted| == k
    && (forall n :: n in m.seen ==> m.seen[n] == Earliest(cfg, base) + cfg.nonceTtl)
    && (forall j: nat :: j <= CACHE_LIMIT + 2 && nonces(j) in m.seen ==> 1 <= j <= k)
    && (k > 0 ==> m.accepted[0] == Early(cfg, nonces, base, 1))
  }

  lemma OneMore(cfg: Config, nonces: nat -> string, base: int, m: Memory, k: nat)
    requires Fresh(nonces) && k <= CACHE_LIMIT && Full(cfg, nonces, base, m, k)
    ensures Full(cfg, nonces, base, Admit(cfg, m, Early(cfg, nonces, base, k + 1)), k + 1)
  {
    assert Collect(m.seen, Earliest(cfg, base)) == m.seen;
    assert nonces(k + 1) !in m.seen;
  }

  lemma {:induction false} FloodedIsFull(cfg: Config, nonces: nat -> string, base: int, k: nat)
    requires Fresh(nonces) && k <= CACHE_LIMIT + 1
    ensures Full(cfg, nonces, base, Flooded(cfg, nonces, base, k), k)
  {
    if k > 0 {
      FloodedIsFull(cfg, nonces, base, k - 1);
      OneMore(cfg, nonces, base, Flooded(cfg, nonces, base, k - 1), k - 1);
    }
  }

  lemma NextIsNew(cfg: Config, nonces: nat -> string, base: int, k: nat)
    requires Fresh(nonces) && k <= CACHE_LIMIT + 1
    ensures nonces(k + 1) !in Flooded(cfg, nonces, base, k).seen && nonces(k + 1) != ""
    ensures k > 0 ==> nonces(1) != nonces(k + 1)
  {
    FloodedIsFull(cfg, nonces, base, k);
  }

  lemma {:induction false} FloodFillsTheCache(cfg: Config, nonces: nat -> string, base: int, k: nat)
    requires Usable(cfg) && Fresh(nonces) && cfg.maxSkew >= 0.0 && k <= CACHE_LIMIT + 1
    ensures Run(cfg, Flood(cfg, nonces, base, k)) == Flooded(cfg, nonces, base, k)
  {
    if k == 0 {
      assert Flood(cfg, nonces, base, k) == [];
    } else {
      var j: nat := k - 1;
      var before, m := Flood(cfg, nonces, base, j), Flooded(cfg, nonces, base, j);
      FloodFillsTheCache(cfg, nonces, base, j);
      NextIsNew(cfg, nonces, base, j);
      RunArrival(cfg, before, m, base, nonces(k), Earliest(cfg, base));
      assert Flood(cfg, nonces, base, k) == before + [Arrival(cfg, base, nonces(k), Earliest(cfg, base))];
      assert Flooded(cfg, nonces, base, k) == Admit(cfg, m, Early(cfg, nonces, base, k));
    }
  }

  lemma {:induction false} FloodIsEarly(cfg: Config, nonces: nat -> string, base: int, k: nat)
    ensures |Flood(cfg, nonces, base, k)| == k
    ensures forall i :: 0 <= i < k ==> Flood(cfg, nonces, base, k)[i].now == Earliest(cfg, base)
  {
    if k > 0 {
      FloodIsEarly(cfg, nonces, base, k - 1);
    }
  }

  // ------------------------------------------------------------------ the replay

  /** Fill the cache with `k` nonces, let it expire, collect it, set the clock back: the first request passes again. */
  function Replay(cfg: Config, nonces: nat -> string, base: int, k: nat, stamp: int, late: real, back: real): seq<Call>
  {
    Flood(cfg, nonces, base, k) + [Arrival(cfg, stamp, nonces(k + 1), late)] + [Arrival(cfg, base, nonces(1), back)]
  }

  lemma ExpiredIsCollected(cfg: Config, m: Memory, a: Acceptance, nonce: string)
    requires |m.seen| > CACHE_LIMIT && nonce != a.nonce
    requires nonce in m.seen && m.seen[nonce] < a.at
    ensures nonce !in Admit(cfg, m, a).seen
  {
  }

  /** The request that collects the flooded cache. */
  function Collector(nonces: nat -> string, k: nat, stamp: int, late: real): Acceptance {
    Acceptance(stamp, nonces(k + 1), late)
  }

  lemma CollectorIsAccepted(cfg: Config, nonces: nat -> string, base: int, k: nat, stamp: int, late: real)
    requires Fresh(nonces) && k <= CACHE_LIMIT + 1 && Usable(cfg) && cfg.maxSkew >= 0.0 && InWindow(cfg, stamp, late)
    ensures Run(cfg, Flood(cfg, nonces, base, k) + [Arrival(cfg, stamp, nonces(k + 1), late)])
            == Admit(cfg, Flooded(cfg, nonces, base, k), Collector(nonces, k, stamp, late))
  {
    FloodFillsTheCache(cfg, nonces, base, k);
    NextIsNew(cfg, nonces, base, k);
    RunArrival(cfg, Flood(cfg, nonces, base, k), Flooded(cfg, nonces, base, k), stamp, nonces(k + 1), late);
  }

  lemma CollectorEmptiesTheCache(cfg: Config, nonces: nat -> string, base: int, k: nat, stamp: int, late: real)
    requires Fresh(nonces) && k == CACHE_LIMIT + 1 && Earliest(cfg, base) + cfg.nonceTtl < late
    ensures nonces(1) !in Admit(cfg, Flooded(cfg, nonces, base, k), Collector(nonces, k, stamp, late)).seen
  {
    FloodedIsFull(cfg, nonces, base, k);
    NextIsNew(cfg, nonces, base, k);
    if nonces(1) in Flooded(cfg, nonces, base, k).seen {
      ExpiredIsCollected(cfg, Flooded(cfg, nonces, base, k), Collector(nonces, k, stamp, late), nonces(1));
    }
  }

  lemma ReplayIsAccepted(cfg: Config, nonces: nat -> string, base: int, k: nat, stamp: int, late: real, back: real)
    requires k == CACHE_LIMIT + 1
    requires Usable(cfg) && Fresh(nonces) && cfg.maxSkew >= 0.0 && InWindow(cfg, stamp, late)
    requires Earliest(cfg, base) + cfg.nonceTtl < late && InWindow(cfg, base, back)
    ensures Run(cfg, Replay(cfg, nonces, base, k, stamp, late, back)).accepted
            == Flooded(cfg, nonces, base, k).accepted
               + [Collector(nonces, k, stamp, late)] + [Acceptance(base, nonces(1), back)]
  {
    CollectorIsAccepted(cfg, nonces, base, k, stamp, late);
    CollectorEmptiesTheCache(cfg, nonces, base, k, stamp, late);
    RunArrival(cfg, Flood(cfg, nonces, base, k) + [Arrival(cfg, stamp, nonces(k + 1), late)],
               Admit(cfg, Flooded(cfg, nonces, base, k), Collector(nonces, k, stamp, late)), base, nonces(1), back);
  }

  lemma ReplayIsADoubleAcceptance(cfg: Config, nonces: nat -> string, base: int, k: nat,
                                  stamp: int, late: real, back: real)
    requires k == CACHE_LIMIT + 1
    requires Usable(cfg) && Fresh(nonces) && cfg.maxSkew >= 0.0 && InWindow(cfg, stamp, late)
    requires Earliest(cfg, base) + cfg.nonceTtl < late && InWindow(cfg, base, back)
    ensures !DistinctAcceptances(Run(cfg, Replay(cfg, nonces, base, k, stamp, late, back)).accepted)
  {
    ReplayIsAccepted(cfg, nonces, base, k, stamp, late, back);
    FloodedIsFull(cfg, nonces, base, k);
    var accepted := Run(cfg, Replay(cfg, nonces, base, k, stamp, late, back)).accepted;
    assert accepted[0] == Early(cfg, nonces, base, 1) && accepted[k + 1] == Acceptance(base, nonces(1), back);
  }

  // ------------------------------------------------------------------ the exact bound

  /** A whole second after `base`, or `base`, and a reading in its window that is past every expiry of the flood. */
  lemma LateReading(cfg: Config, base: int, slack: real) returns (stamp: int, late: real)
    requires cfg.maxSkew >= 0.0 && slack >= 0.0 && !Tolerates(cfg, slack)
    ensures InWindow(cfg, stamp, late) && Earliest(cfg, base) + cfg.nonceTtl < late
    ensures base as real + cfg.maxSkew <= late <= base as real + cfg.maxSkew + slack
  {
    var after := if Slack(cfg).Floor + 1 > 0 then Slack(cfg).Floor + 1 else 0;
    stamp := base + after;
    late := base as real + (if slack <= after as real then slack else after as real) + cfg.maxSkew;
  }

  lemma ReplayReadings(cfg: Config, nonces: nat -> string, base: int, k: nat, stamp: int, late: real, back: real)
    ensures var calls := Replay(cfg, nonces, base, k, stamp, late, back);
            && |calls| == k + 2 && calls[k].now == late && calls[k + 1].now == back
            && forall i :: 0 <= i < k ==> calls[i].now == Earliest(cfg, base)
  {
    FloodIsEarly(cfg, nonces, base, k);
  }

  /** A run around the second `base`, on a clock that falls by at most `slack`, that accepts a pair twice. */
  ghost predicate Replays(cfg: Config, base: int, slack: real, calls: seq<Call>) {
    && ClockFallsAtMost(calls, slack) && !DistinctAcceptances(Run(cfg, calls).accepted)
    && forall i :: 0 <= i < |calls| ==> calls[i].now >= Earliest(cfg, base)
  }

  /** Whatever the nonces and the second: on an untolerated fall there is such a run. */
  lemma LargerFallsReplay(cfg: Config, nonces: nat -> string, base: int, slack: real)
    requires Usable(cfg) && Fresh(nonces) && cfg.maxSkew >= 0.0 && slack >= 0.0 && !Tolerates(cfg, slack)
    ensures exists k: nat, stamp: int, late: real, back: real ::
              Replays(cfg, base, slack, Replay(cfg, nonces, base, k, stamp, late, back))
  {
    var k: nat :| k == CACHE_LIMIT + 1;
    var back := base as real + cfg.maxSkew;
    var stamp, late := LateReading(cfg, base, slack);
    ReplayReadings(cfg, nonces, base, k, stamp, late, back);
    ReplayIsADoubleAcceptance(cfg, nonces, base, k, stamp, late, back);
    assert Replays(cfg, base, slack, Replay(cfg, nonces, base, k, stamp, late, back));
  }

  /** Such nonces exist among the texts of 32 hexadecimal digits, which is what `sign` draws. */
  function Padded(k: nat): string {
    Zfill(Str(k), 32)
  }

  lemma PaddedReadsBack(k: nat)
    requires k < 10_000
    ensures |Padded(k)| == 32 && AllDigits(Padded(k)) && Value(Padded(k)) == k
  {
    assert Pow10(2) == 100;
    assert Pow10(4) == 10 * (10 * Pow10(2));
    StrReadsBack(k);
    StrWidth(k, 4);
    LeadingZeros(32 - |Str(k)|, Str(k));
  }

  lemma PaddedIsFresh()
    ensures Fresh(Padded)
  {
    forall k: nat | k <= CACHE_LIMIT + 2 ensures Padded(k) != "" {
      PaddedReadsBack(k);
    }
    forall j: nat, k: nat | j <= CACHE_LIMIT + 2 && k <= CACHE_LIMIT + 2 && Padded(j) == Padded(k) ensures j == k {
      PaddedReadsBack(j);
      PaddedReadsBack(k);
    }
  }

  lemma NegativeSkewAcceptsNothing(cfg: Config, calls: seq<Call>)
    requires cfg.maxSkew < 0.0
    ensures forall a :: a !in Run(cfg, calls).accepted
    ensures DistinctAcceptances(Run(cfg, calls).accepted)
  {
    RunIsMemoryOk(cfg, calls);
    forall a ensures a !in Run(cfg, calls).accepted {
      assert a in Run(cfg, calls).accepted ==> InWindow(cfg, a.stamp, a.at);
    }
  }

  /** Replays are impossible on every clock that falls back by at most `slack` exactly when that fall is tolerated. */
  lemma SlackIsExact(cfg: Config, slack: real)
    requires Usable(cfg) && slack >= 0.0
    ensures NeverAcceptsTwice(cfg, slack) <==> cfg.maxSkew < 0.0 || Tolerates(cfg, slack)
  {
    if cfg.maxSkew < 0.0 {
      forall calls ensures DistinctAcceptances(Run(cfg, calls).accepted) {
        NegativeSkewAcceptsNothing(cfg, calls);
      }
    } else if Tolerates(cfg, slack) {
      forall calls | ClockFallsAtMost(calls, slack) ensures DistinctAcceptances(Run(cfg, calls).accepted) {
        FallsTolerated(cfg, calls, slack);
        NoDoubleAcceptance(cfg, calls);
      }
    } else {
      PaddedIsFresh();
      LargerFallsReplay(cfg, Padded, 0, slack);
    }
  }

  /** From a skew of half a second on, windows leave no gaps and the tolerated falls are those within the slack. */
  lemma WideWindowSlack(cfg: Config, slack: real)
    requires Usable(cfg) && cfg.maxSkew >= 0.5 && slack >= 0.0
    ensures NeverAcceptsTwice(cfg, slack) <==> slack <= cfg.nonceTtl - 2.0 * cfg.maxSkew
  {
    SlackIsExact(cfg, slack);
  }

  /** With a skew of zero and a whole lifetime, a second more than that lifetime is the first fall that is too far. */
  lemma ZeroSkewSlack(cfg: Config, ttl: nat, slack: real)
    requires Usable(cfg) && cfg.maxSkew == 0.0 && cfg.nonceTtl == ttl as real && slack >= 0.0
    ensures NeverAcceptsTwice(cfg, slack) <==> slack < ttl as real + 1.0
  {
    SlackIsExact(cfg, slack);
  }

  /** The defaults of 30 s and 120 s tolerate a clock set back by a minute and no more. */
  lemma DefaultSlack(cfg: Config, slack: real)
    requires Usable(cfg) && cfg.maxSkew == 30.0 && cfg.nonceTtl == 120.0 && slack >= 0.0
    ensures NeverAcceptsTwice(cfg, slack) <==> slack <= 60.0
  {
    SlackIsExact(cfg, slack);
  }
}
