/**
  The signed text `ts.nonce.body` against its parts: when it stands for one request only, and how often `verify`
  accepts it.
*/
module MeshAuthText {
  import opened MeshAuth
  import opened Wrappers

  function SignedText(r: Request): string {
    Frame(Stamp(r), Nonce(r), r.body)
  }

  /** Another nonce and body that make the same text under the same timestamp. */
  predicate IsTwin(stamp: string, nonce: string, body: string, n: string, b: string) {
    (n != nonce || b != body) && Frame(stamp, n, b) == Frame(stamp, nonce, body)
  }

  ghost predicate HasTwin(stamp: string, nonce: string, body: string) {
    exists n, b :: IsTwin(stamp, nonce, body, n, b)
  }

  lemma FrameSplit(stamp: string, nonce: string, body: string)
    ensures Frame(stamp, nonce, body)[..|stamp|] == stamp
    ensures Frame(stamp, nonce, body)[|stamp| + 1..] == nonce + "." + body
  {
  }

  lemma FrameGlue(stamp: string, n: string, b: string, nonce: string, body: string)
    requires n + "." + b == nonce + "." + body
    ensures Frame(stamp, n, b) == Frame(stamp, nonce, body)
  {
    assert Frame(stamp, n, b) == stamp + "." + (n + "." + b);
    assert Frame(stamp, nonce, body) == stamp + "." + (nonce + "." + body);
  }

  /** Moving the cut to a dot of the body. */
  lemma DotInBody(stamp: string, nonce: string, b1: string, b2: string)
    ensures IsTwin(stamp, nonce, b1 + "." + b2, nonce + "." + b1, b2)
  {
    assert nonce + "." + b1 + "." + b2 == nonce + "." + (b1 + "." + b2);
    FrameGlue(stamp, nonce + "." + b1, b2, nonce, b1 + "." + b2);
    assert |nonce + "." + b1| > |nonce|;
  }

  /** Moving the cut to a dot of the nonce. */
  lemma DotInNonce(stamp: string, n1: string, n2: string, body: string)
    ensures IsTwin(stamp, n1 + "." + n2, body, n1, n2 + "." + body)
  {
    assert n1 + "." + n2 + "." + body == n1 + "." + (n2 + "." + body);
    FrameGlue(stamp, n1, n2 + "." + body, n1 + "." + n2, body);
    assert |n1 + "." + n2| > |n1|;
  }

  lemma SplitAt(s: string, k: nat)
    requires k < |s| && s[k] == '.'
    ensures s == s[..k] + "." + s[k + 1..]
  {
  }

  /** A twin cuts the same text at another dot, which lies in the nonce, behind its cut, or in the body. */
  lemma TwinCutsElsewhere(stamp: string, nonce: string, body: string, n: string, b: string)
    requires IsTwin(stamp, nonce, body, n, b)
    ensures |n| != |nonce|
    ensures |n| < |nonce| ==> nonce[|n|] == '.'
    ensures |n| > |nonce| ==> |n| - |nonce| - 1 < |body| && body[|n| - |nonce| - 1] == '.'
  {
    FrameSplit(stamp, nonce, body);
    FrameSplit(stamp, n, b);
    var t := nonce + "." + body;
    assert t == n + "." + b;
    assert t[..|n|] == n && t[|n|] == '.' && t[|n| + 1..] == b;
    assert t[..|nonce|] == nonce && t[|nonce| + 1..] == body;
  }

  /** Under a given timestamp, a nonce and a body have a twin exactly when one of them holds a dot. */
  lemma FrameHasTwin(stamp: string, nonce: string, body: string)
    ensures HasTwin(stamp, nonce, body) <==> '.' in nonce || '.' in body
  {
    if '.' in body {
      var k :| 0 <= k < |body| && body[k] == '.';
      SplitAt(body, k);
      DotInBody(stamp, nonce, body[..k], body[k + 1..]);
    } else if '.' in nonce {
      var k :| 0 <= k < |nonce| && nonce[k] == '.';
      SplitAt(nonce, k);
      DotInNonce(stamp, nonce[..k], nonce[k + 1..], body);
    } else {
      forall n, b ensures !IsTwin(stamp, nonce, body, n, b) {
        if IsTwin(stamp, nonce, body, n, b) {
          TwinCutsElsewhere(stamp, nonce, body, n, b);
        }
      }
    }
  }

  // ------------------------------------------------------------------ what verify makes of it

  /** The same signature over another cut of the text. */
  function Recut(r: Request, n: string, b: string): Request {
    Request(map["x-boddos-timestamp" := Stamp(r), "x-boddos-nonce" := n, "x-boddos-sig" := Sig(r)], b)
  }

  lemma RecutScreens(cfg: Config, r: Request, n: string, b: string, now: real)
    requires n != "" && IsTwin(Stamp(r), Nonce(r), r.body, n, b) && Screen(cfg, r, now) == Accepted
    ensures Screen(cfg, Recut(r, n, b), now) == Accepted && Nonce(Recut(r, n, b)) == n
    ensures Stamp(Recut(r, n, b)) == Stamp(r) && SignedText(Recut(r, n, b)) == SignedText(r)
  {
  }

  /**
    A request that is accepted with a dot in its body is accepted once more with the text before that dot moved into
    the nonce, at the same reading and by any cache, unless that nonce is in it.
  */
  lemma TwinIsAccepted(cfg: Config, r: Request, b1: string, b2: string, now: real, seen: map<string, real>)
    requires r.body == b1 + "." + b2 && Screen(cfg, r, now) == Accepted
    ensures var twin := Recut(r, Nonce(r) + "." + b1, b2);
            && SignedText(twin) == SignedText(r)
            && (VerifyStep(cfg, seen, twin, now).0 == Accepted <==> Nonce(r) + "." + b1 !in seen)
  {
    DotInBody(Stamp(r), Nonce(r), b1, b2);
    RecutScreens(cfg, r, Nonce(r) + "." + b1, b2, now);
  }

  // ------------------------------------------------------------------ runs

  /** Call `i` of the run is accepted. */
  predicate AcceptedAt(cfg: Config, calls: seq<Call>, i: nat)
    requires i < |calls|
  {
    LastOutcome(cfg, calls[..i + 1]) == Accepted
  }

  ghost predicate AcceptedTwice(cfg: Config, calls: seq<Call>, text: string) {
    exists i: nat, j: nat :: i < j < |calls| && BothAccepted(cfg, calls, i, j, text)
  }

  predicate BothAccepted(cfg: Config, calls: seq<Call>, i: nat, j: nat, text: string)
    requires i < j < |calls|
  {
    && AcceptedAt(cfg, calls, i) && SignedText(calls[i].req) == text
    && AcceptedAt(cfg, calls, j) && SignedText(calls[j].req) == text
  }

  lemma AcceptedScreens(cfg: Config, calls: seq<Call>, i: nat)
    requires i < |calls| && AcceptedAt(cfg, calls, i)
    ensures calls[..i + 1] == calls[..i] + [calls[i]]
    ensures VerifyStep(cfg, Run(cfg, calls[..i]).seen, calls[i].req, calls[i].now).0 == Accepted
    ensures Screen(cfg, calls[i].req, calls[i].now) == Accepted
    ensures Run(cfg, calls[..i + 1]).accepted == Run(cfg, calls[..i]).accepted + [Latest(cfg, calls[i])]
  {
    assert calls[..i + 1][..i] == calls[..i];
  }

  lemma AcceptedGrows(cfg: Config, calls: seq<Call>, j: nat, a: Acceptance)
    requires j < |calls| && a in Run(cfg, calls[..j]).accepted
    ensures a in Run(cfg, calls[..j + 1]).accepted
  {
    assert calls[..j + 1][..j] == calls[..j];
  }

  lemma {:induction false} AcceptanceStays(cfg: Config, calls: seq<Call>, i: nat, j: nat, a: Acceptance)
    requires i <= j <= |calls| && a in Run(cfg, calls[..i]).accepted
    ensures a in Run(cfg, calls[..j]).accepted
    decreases j
  {
    if i < j {
      AcceptanceStays(cfg, calls, i, j - 1, a);
      AcceptedGrows(cfg, calls, j - 1, a);
    }
  }

  lemma PrefixTolerated(cfg: Config, calls: seq<Call>, n: nat)
    requires ClockTolerated(cfg, calls) && n <= |calls|
    ensures ClockTolerated(cfg, calls[..n])
  {
  }

  /** An accepted call has another nonce than any earlier acceptance under its timestamp. */
  lemma NonceIsNew(cfg: Config, before: seq<Call>, c: Call, a: Acceptance)
    requires ClockTolerated(cfg, before + [c]) && a in Run(cfg, before).accepted
    requires VerifyStep(cfg, Run(cfg, before).seen, c.req, c.now).0 == Accepted
    requires cfg.toInt(Stamp(c.req)) == Some(a.stamp)
    ensures Nonce(c.req) != a.nonce
  {
    assert (before + [c])[..|before|] == before;
    SameStampIsCached(cfg, before + [c], a);
  }

  /** Two acceptances under one timestamp have different nonces. */
  lemma AcceptedNoncesDiffer(cfg: Config, calls: seq<Call>, i: nat, j: nat)
    requires ClockTolerated(cfg, calls) && i < j < |calls|
    requires AcceptedAt(cfg, calls, i) && AcceptedAt(cfg, calls, j)
    requires cfg.toInt(Stamp(calls[i].req)) == cfg.toInt(Stamp(calls[j].req))
    ensures Nonce(calls[i].req) != Nonce(calls[j].req)
  {
    AcceptedScreens(cfg, calls, i);
    AcceptedScreens(cfg, calls, j);
    PrefixTolerated(cfg, calls, j + 1);
    AcceptanceStays(cfg, calls, i + 1, j, Latest(cfg, calls[i]));
    NonceIsNew(cfg, calls[..j], calls[j], Latest(cfg, calls[i]));
  }

  predicate DotFree(r: Request) {
    '.' !in Stamp(r) && '.' !in Nonce(r)
  }

  /** No text is accepted twice from requests whose timestamps and nonces hold no dot. */
  lemma NoTextTwice(cfg: Config, calls: seq<Call>, i: nat, j: nat)
    requires ClockTolerated(cfg, calls) && i < j < |calls|
    requires AcceptedAt(cfg, calls, i) && AcceptedAt(cfg, calls, j)
    requires DotFree(calls[i].req) && DotFree(calls[j].req)
    ensures SignedText(calls[i].req) != SignedText(calls[j].req)
  {
    if SignedText(calls[i].req) == SignedText(calls[j].req) {
      var r, q := calls[i].req, calls[j].req;
      FrameIsInjective(Stamp(r), Nonce(r), r.body, Stamp(q), Nonce(q), q.body);
      AcceptedNoncesDiffer(cfg, calls, i, j);
    }
  }

  /** Python's `int` reads no text with a dot. */
  ghost predicate ReadsWhole(cfg: Config) {
    forall s :: cfg.toInt(s).Some? ==> '.' !in s
  }

  /** The text stands for one request with a nonce: no dot in the body, nor in the nonce past its first character. */
  predicate Unambiguous(r: Request)
    requires Nonce(r) != ""
  {
    '.' !in r.body && '.' !in Nonce(r)[1..]
  }

  /** An accepted request with the text of an unambiguous one has its timestamp and its nonce. */
  lemma UnambiguousNonce(cfg: Config, r: Request, q: Request)
    requires ReadsWhole(cfg) && ValidlySigned(cfg, r) && ValidlySigned(cfg, q) && Unambiguous(r)
    requires SignedText(q) == SignedText(r)
    ensures Stamp(q) == Stamp(r) && Nonce(q) == Nonce(r)
  {
    assert SignedText(q) == Stamp(q) + ("." + Nonce(q) + "." + q.body);
    assert SignedText(r) == Stamp(r) + ("." + Nonce(r) + "." + r.body);
    FirstDot(Stamp(q), "." + Nonce(q) + "." + q.body, Stamp(r), "." + Nonce(r) + "." + r.body);
    forall k | 0 < k < |Nonce(r)| ensures Nonce(r)[k] != '.' {
      assert Nonce(r)[1..][k - 1] in Nonce(r)[1..];
    }
    if IsTwin(Stamp(r), Nonce(r), r.body, Nonce(q), q.body) {
      TwinCutsElsewhere(Stamp(r), Nonce(r), r.body, Nonce(q), q.body);
    }
  }

  lemma UnambiguousPair(cfg: Config, r: Request, calls: seq<Call>, i: nat, j: nat)
    requires ReadsWhole(cfg) && ValidlySigned(cfg, r) && Unambiguous(r) && ClockTolerated(cfg, calls)
    requires i < j < |calls| && AcceptedAt(cfg, calls, i) && AcceptedAt(cfg, calls, j)
    requires SignedText(calls[i].req) == SignedText(r)
    ensures SignedText(calls[j].req) != SignedText(r)
  {
    AcceptedScreens(cfg, calls, i);
    AcceptedScreens(cfg, calls, j);
    UnambiguousNonce(cfg, r, calls[i].req);
    if SignedText(calls[j].req) == SignedText(r) {
      UnambiguousNonce(cfg, r, calls[j].req);
      AcceptedNoncesDiffer(cfg, calls, i, j);
    }
  }

  lemma UnambiguousIsAcceptedOnce(cfg: Config, r: Request, calls: seq<Call>)
    requires ReadsWhole(cfg) && ValidlySigned(cfg, r) && Unambiguous(r) && ClockTolerated(cfg, calls)
    ensures !AcceptedTwice(cfg, calls, SignedText(r))
  {
    forall i: nat, j: nat | i < j < |calls| && AcceptedAt(cfg, calls, i) && AcceptedAt(cfg, calls, j)
      ensures !BothAccepted(cfg, calls, i, j, SignedText(r))
    {
      if SignedText(calls[i].req) == SignedText(r) {
        UnambiguousPair(cfg, r, calls, i, j);
      }
    }
  }

  /** An ambiguous text has a twin with a nonce. */
  lemma AmbiguousHasTwin(r: Request) returns (n: string, b: string)
    requires Nonce(r) != "" && !Unambiguous(r)
    ensures n != "" && n != Nonce(r) && IsTwin(Stamp(r), Nonce(r), r.body, n, b)
  {
    if '.' in r.body {
      var k :| 0 <= k < |r.body| && r.body[k] == '.';
      SplitAt(r.body, k);
      DotInBody(Stamp(r), Nonce(r), r.body[..k], r.body[k + 1..]);
      n, b := Nonce(r) + "." + r.body[..k], r.body[k + 1..];
    } else {
      var k :| 0 <= k < |Nonce(r)[1..]| && Nonce(r)[1..][k] == '.';
      SplitAt(Nonce(r), k + 1);
      DotInNonce(Stamp(r), Nonce(r)[..k + 1], Nonce(r)[k + 2..], r.body);
      n, b := Nonce(r)[..k + 1], Nonce(r)[k + 2..] + "." + r.body;
    }
    TwinCutsElsewhere(Stamp(r), Nonce(r), r.body, n, b);
  }

  lemma TwoCallsAccepted(cfg: Config, a: Call, b: Call)
    requires Screen(cfg, a.req, a.now) == Accepted && Screen(cfg, b.req, b.now) == Accepted
    requires Nonce(a.req) != Nonce(b.req) && SignedText(a.req) == SignedText(b.req)
    ensures AcceptedTwice(cfg, [a, b], SignedText(a.req))
  {
    var calls := [a, b];
    assert calls[..1] == [a] && calls[..2] == calls;
    assert [a][..0] == [] && calls[..2][..1] == [a];
    assert Run(cfg, []) == Memory(map[], []);
    assert VerifyStep(cfg, map[], a.req, a.now).0 == Accepted;
    assert Run(cfg, [a]) == Step(cfg, Run(cfg, []), a);
    assert Nonce(b.req) !in Run(cfg, [a]).seen;
    assert BothAccepted(cfg, calls, 0, 1, SignedText(a.req));
  }

  lemma AmbiguousIsAcceptedTwice(cfg: Config, r: Request) returns (calls: seq<Call>)
    requires ValidlySigned(cfg, r) && Ascii(Sig(r)) && !Unambiguous(r)
    requires cfg.maxSkew >= 0.0 && Tolerates(cfg, 0.0)
    ensures ClockTolerated(cfg, calls) && AcceptedTwice(cfg, calls, SignedText(r))
  {
    var now := cfg.toInt(Stamp(r)).value as real;
    var n, b := AmbiguousHasTwin(r);
    RecutScreens(cfg, r, n, b, now);
    calls := [Call(r, now), Call(Recut(r, n, b), now)];
    TwoCallsAccepted(cfg, calls[0], calls[1]);
  }

  /**
    A validly signed text is accepted at most once in every run on a tolerated clock exactly when there is no dot in
    the body, nor in the nonce past its first character.
  */
  lemma OneAcceptancePerText(cfg: Config, r: Request)
    requires ReadsWhole(cfg) && ValidlySigned(cfg, r) && Ascii(Sig(r))
    requires cfg.maxSkew >= 0.0 && Tolerates(cfg, 0.0)
    ensures (forall calls :: ClockTolerated(cfg, calls) ==> !AcceptedTwice(cfg, calls, SignedText(r)))
            <==> Unambiguous(r)
  {
    if Unambiguous(r) {
      forall calls | ClockTolerated(cfg, calls) ensures !AcceptedTwice(cfg, calls, SignedText(r)) {
        UnambiguousIsAcceptedOnce(cfg, r, calls);
      }
    } else {
      var _ := AmbiguousIsAcceptedTwice(cfg, r);
    }
  }

  /** For what `sign` makes, whose nonces hold no dot, that is when the body holds none. */
  lemma SignatureIsUsedOnce(cfg: Config, body: string, sent: real, nonce: string)
    requires ReadsWhole(cfg) && Usable(cfg) && nonce != "" && '.' !in nonce
    requires cfg.maxSkew >= 0.0 && Tolerates(cfg, 0.0)
    ensures var text := SignedText(Request(Sign(cfg, body, sent, nonce), body));
            (forall calls :: ClockTolerated(cfg, calls) ==> !AcceptedTwice(cfg, calls, text)) <==> '.' !in body
  {
    SignedIsAccepted(cfg, body, nonce, sent, map[], 0.0);
    OneAcceptancePerText(cfg, Request(Sign(cfg, body, sent, nonce), body));
  }
}
