/**
  The hash-chained audit log of `boddos/security/audit.py`.

  The file is a sequence of lines, each blank or one JSON object. SHA-256 and the canonical JSON
  text (sorted keys, no spaces) are parameters. A file that does not exist behaves as an empty one.
*/
module Audit {
  import Decimal

  /** JSON values; a number is kept as its literal. */
  datatype Value =
    | Null
    | Bool(b: bool)
    | Num(literal: string)
    | Str(s: string)
    | Arr(items: seq<Value>)
    | Obj(fields: map<string, Value>)

  type Entry = map<string, Value>

  datatype Line = Blank | Json(entry: Entry)

  datatype Hashing = Hashing(sha: string -> string, canon: Entry -> string)

  const ZERO_HASH: string := Decimal.Zeros(64)

  function Entries(lines: seq<Line>): seq<Entry> {
    if lines == [] then []
    else
      var last := lines[|lines| - 1];
      Entries(lines[..|lines| - 1]) + (if last.Json? then [last.entry] else [])
  }

  function StoredHash(e: Entry, default: Value): Value {
    if "hash" in e then e["hash"] else default
  }

  function Body(e: Entry): Entry {
    e - {"hash"}
  }

  /** The text that an entry's hash is taken of. */
  function Message(h: Hashing, prev: string, body: Entry): string {
    prev + h.canon(body)
  }

  function HashOf(h: Hashing, prev: string, e: Entry): string {
    h.sha(Message(h, prev, Body(e)))
  }

  predicate Names(e: Entry, prev: string) {
    "prev_hash" in Body(e) && Body(e)["prev_hash"] == Str(prev)
  }

  /** One turn of `verify_chain`: the entry names `prev` and its stored hash is the hash of its message. */
  predicate Linked(h: Hashing, prev: string, e: Entry) {
    Names(e, prev) && Str(HashOf(h, prev, e)) == StoredHash(e, Str(""))
  }

  /** `verify_chain` from a given previous hash: intact or not, and the entries checked. */
  function VerifyFrom(h: Hashing, prev: string, es: seq<Entry>): (bool, nat)
    decreases |es|
  {
    if es == [] then (true, 0)
    else if !Linked(h, prev, es[0]) then (false, 0)
    else
      var (ok, n) := VerifyFrom(h, HashOf(h, prev, es[0]), es[1..]);
      (ok, n + 1)
  }

  function LastHash(es: seq<Entry>): Value {
    if es == [] then Str(ZERO_HASH) else StoredHash(es[|es| - 1], Str(ZERO_HASH))
  }

  function NewBody(prev: string, ts: Value, actor: string, action: string, detail: Value): Entry {
    map["ts" := ts, "actor" := Str(actor), "action" := Str(action), "detail" := detail, "prev_hash" := Str(prev)]
  }

  function NewEntry(h: Hashing, prev: string, ts: Value, actor: string, action: string, detail: Value): Entry {
    var body := NewBody(prev, ts, actor, action, detail);
    body["hash" := Str(h.sha(Message(h, prev, body)))]
  }

  // ------------------------------------------------------------------ the longest verifying prefix

  function AsText(v: Value): string {
    if v.Str? then v.s else ""
  }

  /** The hash entry `i` has to continue from. */
  function PrevOf(es: seq<Entry>, i: nat): string
    requires i <= |es|
  {
    if i == 0 then ZERO_HASH else AsText(StoredHash(es[i - 1], Str("")))
  }

  predicate LinkAt(h: Hashing, es: seq<Entry>, i: nat)
    requires i < |es|
  {
    Linked(h, PrevOf(es, i), es[i])
  }

  /** The first `n` entries verify. */
  ghost predicate Chained(h: Hashing, es: seq<Entry>, n: nat)
    requires n <= |es|
  {
    forall i :: 0 <= i < n ==> LinkAt(h, es, i)
  }

  ghost predicate Intact(h: Hashing, es: seq<Entry>) {
    Chained(h, es, |es|)
  }

  function FinalHash(es: seq<Entry>): string {
    PrevOf(es, |es|)
  }

  lemma ChainedOneMore(h: Hashing, es: seq<Entry>, k: nat)
    requires k < |es| && Chained(h, es, k) && Linked(h, PrevOf(es, k), es[k])
    ensures Chained(h, es, k + 1) && PrevOf(es, k + 1) == HashOf(h, PrevOf(es, k), es[k])
    ensures es[k..][0] == es[k] && es[k..][1..] == es[k + 1..]
  {
    assert LinkAt(h, es, k);
  }

  lemma {:induction false} VerifySuffix(h: Hashing, es: seq<Entry>, k: nat)
    requires k <= |es| && Chained(h, es, k)
    ensures var (ok, n) := VerifyFrom(h, PrevOf(es, k), es[k..]);
            && k + n <= |es| && Chained(h, es, k + n)
            && (ok <==> k + n == |es|)
            && (!ok ==> !Linked(h, PrevOf(es, k + n), es[k + n]))
    decreases |es| - k
  {
    if k < |es| && Linked(h, PrevOf(es, k), es[k]) {
      ChainedOneMore(h, es, k);
      VerifySuffix(h, es, k + 1);
    }
  }

  /** `verify_chain` counts the longest prefix of entries that verify, and reports intact when that is all of them. */
  lemma VerifyIsLongestPrefix(h: Hashing, es: seq<Entry>)
    ensures var (ok, n) := VerifyFrom(h, ZERO_HASH, es);
            && n <= |es| && Chained(h, es, n)
            && (forall k :: n < k <= |es| ==> !Chained(h, es, k))
            && (ok <==> Intact(h, es)) && (ok ==> n == |es|)
  {
    VerifySuffix(h, es, 0);
    assert es[0..] == es;
    var n := VerifyFrom(h, ZERO_HASH, es).1;
    forall k | n < k <= |es| ensures !Chained(h, es, k) {
      assert Chained(h, es, k) ==> LinkAt(h, es, n);
    }
  }

  /** Entry `i` names the hash stored before it, at first 64 zeros, and stores the hash of that and its other fields. */
  ghost predicate LinkInPlain(h: Hashing, es: seq<Entry>, i: nat)
    requires i < |es|
  {
    var e := es[i];
    && "hash" in e && "prev_hash" in e && e["prev_hash"].Str?
    && (if i == 0 then IsZeros(e["prev_hash"].s) else "hash" in es[i - 1] && e["prev_hash"] == es[i - 1]["hash"])
    && e["hash"] == Str(h.sha(e["prev_hash"].s + h.canon(e - {"hash"})))
  }

  predicate IsZeros(s: string) {
    |s| == 64 && forall i :: 0 <= i < 64 ==> s[i] == '0'
  }

  lemma ZerosAreOne(s: string)
    ensures IsZeros(s) <==> s == ZERO_HASH
  {
  }

  lemma LinkAtInPlain(h: Hashing, es: seq<Entry>, i: nat)
    requires i < |es| && (i > 0 ==> "hash" in es[i - 1] && es[i - 1]["hash"].Str?)
    requires forall s :: |h.sha(s)| == 64
    ensures LinkAt(h, es, i) <==> LinkInPlain(h, es, i)
  {
    ZerosAreOne(PrevOf(es, i));
    if "prev_hash" in es[i] && es[i]["prev_hash"].Str? {
      ZerosAreOne(es[i]["prev_hash"].s);
    }
  }

  lemma {:induction false} ChainedInPlain(h: Hashing, es: seq<Entry>, n: nat)
    requires n <= |es| && forall s :: |h.sha(s)| == 64
    ensures Chained(h, es, n) <==> forall i :: 0 <= i < n ==> LinkInPlain(h, es, i)
  {
    if n > 0 {
      ChainedInPlain(h, es, n - 1);
      if Chained(h, es, n - 1) {
        assert n > 1 ==> LinkAt(h, es, n - 2);
        LinkAtInPlain(h, es, n - 1);
        assert Chained(h, es, n) <==> LinkAt(h, es, n - 1);
      } else {
        assert !Chained(h, es, n);
      }
    }
  }

  /** A log verifies exactly when every entry is linked; it counts the entries before the first that is not. */
  lemma VerifyInPlain(h: Hashing, es: seq<Entry>)
    requires forall s :: |h.sha(s)| == 64
    ensures var (ok, n) := VerifyFrom(h, ZERO_HASH, es);
            && (ok <==> forall i :: 0 <= i < |es| ==> LinkInPlain(h, es, i))
            && n <= |es| && (ok ==> n == |es|)
            && (forall i :: 0 <= i < n ==> LinkInPlain(h, es, i))
            && (!ok ==> n < |es| && !LinkInPlain(h, es, n))
  {
    VerifyIsLongestPrefix(h, es);
    var (ok, n) := VerifyFrom(h, ZERO_HASH, es);
    ChainedInPlain(h, es, |es|);
    ChainedInPlain(h, es, n);
    if n < |es| {
      ChainedInPlain(h, es, n + 1);
    }
  }

  // ------------------------------------------------------------------ recording

  lemma NewEntryIsLinked(h: Hashing, prev: string, ts: Value, actor: string, action: string, detail: Value)
    ensures var e := NewEntry(h, prev, ts, actor, action, detail);
            Linked(h, prev, e) && Body(e) == NewBody(prev, ts, actor, action, detail)
  {
    assert Body(NewEntry(h, prev, ts, actor, action, detail)) == NewBody(prev, ts, actor, action, detail);
  }

  /** What a recorded entry holds: the six fields, and the hash of the previous hash and the other five. */
  ghost predicate Holds(h: Hashing, e: Entry, prev: string, ts: Value, actor: string, action: string, detail: Value) {
    && e.Keys == {"ts", "actor", "action", "detail", "prev_hash", "hash"}
    && e["ts"] == ts && e["actor"] == Str(actor) && e["action"] == Str(action) && e["detail"] == detail
    && e["prev_hash"] == Str(prev)
    && e["hash"] == Str(h.sha(prev + h.canon(e - {"hash"})))
  }

  lemma EntryInPlain(h: Hashing, prev: string, ts: Value, actor: string, action: string, detail: Value)
    ensures Holds(h, NewEntry(h, prev, ts, actor, action, detail), prev, ts, actor, action, detail)
  {
    NewEntryIsLinked(h, prev, ts, actor, action, detail);
  }

  lemma LinkedKeepsIntact(h: Hashing, es: seq<Entry>, e: Entry)
    requires Intact(h, es) && Linked(h, FinalHash(es), e)
    ensures Intact(h, es + [e])
  {
    forall i | 0 <= i < |es + [e]| ensures LinkAt(h, es + [e], i) {
      assert PrevOf(es + [e], i) == PrevOf(es, i);
      assert i < |es| ==> LinkAt(h, es, i);
    }
  }

  /** On an intact log the hash that `record` reads back is the one `verify_chain` ends with. */
  lemma LastHashOfIntact(h: Hashing, es: seq<Entry>)
    requires Intact(h, es) && forall s :: |h.sha(s)| == 64
    ensures LastHash(es) == Str(FinalHash(es)) && |FinalHash(es)| == 64
  {
    if es != [] {
      assert LinkAt(h, es, |es| - 1);
    }
  }

  /** Recording on an intact log keeps it intact. */
  lemma RecordKeepsIntact(h: Hashing, es: seq<Entry>, ts: Value, actor: string, action: string, detail: Value)
    requires Intact(h, es)
    ensures Intact(h, es + [NewEntry(h, FinalHash(es), ts, actor, action, detail)])
  {
    NewEntryIsLinked(h, FinalHash(es), ts, actor, action, detail);
    LinkedKeepsIntact(h, es, NewEntry(h, FinalHash(es), ts, actor, action, detail));
  }

  // ------------------------------------------------------------------ tamper evidence

  /** The texts hashed when a log is verified. */
  function Messages(h: Hashing, es: seq<Entry>): set<string> {
    if es == [] then {}
    else
      var init := es[..|es| - 1];
      Messages(h, init) + {Message(h, FinalHash(init), Body(es[|es| - 1]))}
  }

  /** Among these texts, two different ones have the same hash or one hashes to the all-zero string. */
  ghost predicate HashBroken(h: Hashing, texts: set<string>) {
    || (exists x, y :: x in texts && y in texts && x != y && h.sha(x) == h.sha(y))
    || (exists x :: x in texts && h.sha(x) == ZERO_HASH)
  }

  lemma HashBrokenStays(h: Hashing, texts: set<string>, more: set<string>)
    requires HashBroken(h, texts) && texts <= more
    ensures HashBroken(h, more)
  {
  }

  lemma LastOfIntact(h: Hashing, es: seq<Entry>)
    requires Intact(h, es) && es != [] && forall s :: |h.sha(s)| == 64
    ensures var init, e := es[..|es| - 1], es[|es| - 1];
            && Intact(h, init)
            && FinalHash(es) == HashOf(h, FinalHash(init), e)
            && e == Body(e)["hash" := Str(FinalHash(es))]
  {
    var n := |es| - 1;
    var init, e := es[..n], es[n];
    forall i | 0 <= i < n ensures LinkAt(h, init, i) {
      assert LinkAt(h, es, i) && PrevOf(init, i) == PrevOf(es, i);
    }
    assert LinkAt(h, es, n) && PrevOf(es, n) == FinalHash(init);
    assert "hash" in e;
    assert e == Body(e)["hash" := e["hash"]];
  }

  lemma SplitMessage(p1: string, c1: string, p2: string, c2: string)
    requires |p1| == |p2| && p1 + c1 == p2 + c2
    ensures p1 == p2 && c1 == c2
  {
    assert (p1 + c1)[..|p1|] == p1 && (p2 + c2)[..|p2|] == p2;
    assert (p1 + c1)[|p1|..] == c1 && (p2 + c2)[|p2|..] == c2;
  }

  ghost predicate CanonicalText(h: Hashing) {
    forall b, c :: h.canon(b) == h.canon(c) ==> b == c
  }

  /**
    Two logs that both verify and end in the same hash hold the same entries in the same order,
    or else the texts hashed to verify them exhibit a collision of the hash or a preimage of the all-zero string.
  */
  lemma TamperEvidence(h: Hashing, a: seq<Entry>, b: seq<Entry>)
    requires CanonicalText(h) && forall s :: |h.sha(s)| == 64
    requires VerifyFrom(h, ZERO_HASH, a).0 && VerifyFrom(h, ZERO_HASH, b).0 && FinalHash(a) == FinalHash(b)
    ensures a == b || HashBroken(h, Messages(h, a) + Messages(h, b))
  {
    VerifyIsLongestPrefix(h, a);
    VerifyIsLongestPrefix(h, b);
    IntactEqual(h, a, b);
  }

  /** Unless the hash is broken, equal final hashes of non-empty logs come from equal last entries on equal hashes. */
  lemma SameLast(h: Hashing, a: seq<Entry>, b: seq<Entry>)
    requires CanonicalText(h) && forall s :: |h.sha(s)| == 64
    requires Intact(h, a) && Intact(h, b) && FinalHash(a) == FinalHash(b) && a != [] && b != []
    requires !HashBroken(h, Messages(h, a) + Messages(h, b))
    ensures a[|a| - 1] == b[|b| - 1] && FinalHash(a[..|a| - 1]) == FinalHash(b[..|b| - 1])
  {
    var a0, b0, x, y := a[..|a| - 1], b[..|b| - 1], a[|a| - 1], b[|b| - 1];
    LastOfIntact(h, a);
    LastOfIntact(h, b);
    LastHashOfIntact(h, a0);
    LastHashOfIntact(h, b0);
    SplitMessage(FinalHash(a0), h.canon(Body(x)), FinalHash(b0), h.canon(Body(y)));
  }

  /** The empty log's final hash is a preimage of the all-zero string for any other intact log. */
  lemma EmptyAgainstOther(h: Hashing, a: seq<Entry>)
    requires Intact(h, a) && FinalHash(a) == ZERO_HASH && a != [] && forall s :: |h.sha(s)| == 64
    ensures HashBroken(h, Messages(h, a))
  {
    LastOfIntact(h, a);
  }

  lemma {:induction false} IntactEqual(h: Hashing, a: seq<Entry>, b: seq<Entry>)
    requires CanonicalText(h) && forall s :: |h.sha(s)| == 64
    requires Intact(h, a) && Intact(h, b) && FinalHash(a) == FinalHash(b)
    ensures a == b || HashBroken(h, Messages(h, a) + Messages(h, b))
    decreases |a|, 1
  {
    var texts := Messages(h, a) + Messages(h, b);
    if a == [] && b != [] {
      EmptyAgainstOther(h, b);
      HashBrokenStays(h, Messages(h, b), texts);
    } else if a != [] && b == [] {
      EmptyAgainstOther(h, a);
      HashBrokenStays(h, Messages(h, a), texts);
    } else if a != [] && b != [] && !HashBroken(h, texts) {
      SameLast(h, a, b);
      IntactEqualButLast(h, a, b);
    }
  }

  lemma {:induction false} IntactEqualButLast(h: Hashing, a: seq<Entry>, b: seq<Entry>)
    requires CanonicalText(h) && forall s :: |h.sha(s)| == 64
    requires Intact(h, a) && Intact(h, b) && a != [] && b != []
    requires a[|a| - 1] == b[|b| - 1] && FinalHash(a[..|a| - 1]) == FinalHash(b[..|b| - 1])
    ensures a == b || HashBroken(h, Messages(h, a) + Messages(h, b))
    decreases |a|, 0
  {
    var a0, b0 := a[..|a| - 1], b[..|b| - 1];
    LastOfIntact(h, a);
    LastOfIntact(h, b);
    IntactEqual(h, a0, b0);
    if a0 == b0 {
      assert a == a0 + [a[|a| - 1]] && b == b0 + [b[|b| - 1]];
    } else {
      HashBrokenStays(h, Messages(h, a0) + Messages(h, b0), Messages(h, a) + Messages(h, b));
    }
  }

  /** Against a kept final hash, a log verifies exactly when it is the original. */
  lemma EditIsReported(h: Hashing, original: seq<Entry>, edited: seq<Entry>)
    requires CanonicalText(h) && forall s :: |h.sha(s)| == 64
    requires VerifyFrom(h, ZERO_HASH, original).0
    requires !HashBroken(h, Messages(h, original) + Messages(h, edited))
    ensures VerifyFrom(h, ZERO_HASH, edited).0 && FinalHash(edited) == FinalHash(original) <==> edited == original
  {
    if VerifyFrom(h, ZERO_HASH, edited).0 && FinalHash(edited) == FinalHash(original) {
      TamperEvidence(h, original, edited);
    }
  }

  lemma PrefixIsIntact(h: Hashing, es: seq<Entry>, n: nat)
    requires Intact(h, es) && n <= |es|
    ensures Intact(h, es[..n]) && FinalHash(es[..n]) == PrevOf(es, n)
  {
    forall i | 0 <= i < n ensures LinkAt(h, es[..n], i) {
      assert LinkAt(h, es, i) && PrevOf(es[..n], i) == PrevOf(es, i);
    }
  }

  lemma {:induction false} MessagesOfPrefix(h: Hashing, es: seq<Entry>, n: nat)
    requires n <= |es|
    ensures Messages(h, es[..n]) <= Messages(h, es)
    decreases |es|
  {
    if n == |es| {
      assert es[..n] == es;
    } else {
      var init := es[..|es| - 1];
      MessagesOfPrefix(h, init, n);
      assert init[..n] == es[..n];
    }
  }

  /** Two logs that verify and have a stored hash in common, wherever in each, agree on everything up to it. */
  lemma CommonHashCommonPast(h: Hashing, a: seq<Entry>, i: nat, b: seq<Entry>, j: nat)
    requires CanonicalText(h) && forall s :: |h.sha(s)| == 64
    requires VerifyFrom(h, ZERO_HASH, a).0 && VerifyFrom(h, ZERO_HASH, b).0
    requires i <= |a| && j <= |b| && PrevOf(a, i) == PrevOf(b, j)
    ensures a[..i] == b[..j] || HashBroken(h, Messages(h, a) + Messages(h, b))
  {
    VerifyIsLongestPrefix(h, a);
    VerifyIsLongestPrefix(h, b);
    PrefixIsIntact(h, a, i);
    PrefixIsIntact(h, b, j);
    IntactEqual(h, a[..i], b[..j]);
    MessagesOfPrefix(h, a, i);
    MessagesOfPrefix(h, b, j);
    if a[..i] != b[..j] {
      HashBrokenStays(h, Messages(h, a[..i]) + Messages(h, b[..j]), Messages(h, a) + Messages(h, b));
    }
  }

  datatype Event = Event(ts: Value, actor: string, action: string, detail: Value)

  /** A log with further events recorded on it. */
  function Rechained(h: Hashing, es: seq<Entry>, events: seq<Event>): seq<Entry> {
    if events == [] then es
    else
      var before, e := Rechained(h, es, events[..|events| - 1]), events[|events| - 1];
      before + [NewEntry(h, FinalHash(before), e.ts, e.actor, e.action, e.detail)]
  }

  lemma {:induction false} RechainedIsIntact(h: Hashing, es: seq<Entry>, events: seq<Event>)
    requires Intact(h, es)
    ensures Intact(h, Rechained(h, es, events)) && |Rechained(h, es, events)| == |es| + |events|
  {
    if events != [] {
      var before, e := Rechained(h, es, events[..|events| - 1]), events[|events| - 1];
      RechainedIsIntact(h, es, events[..|events| - 1]);
      RecordKeepsIntact(h, before, e.ts, e.actor, e.action, e.detail);
    }
  }

  /**
    Without a hash to compare with, a rewritten tail goes unreported: whatever events are recorded on whatever prefix
    of a log that verifies, the result verifies with its own length.
  */
  lemma RewrittenTailVerifies(h: Hashing, es: seq<Entry>, k: nat, events: seq<Event>)
    requires VerifyFrom(h, ZERO_HASH, es).0 && k <= |es|
    ensures VerifyFrom(h, ZERO_HASH, Rechained(h, es[..k], events)) == (true, k + |events|)
  {
    VerifyIsLongestPrefix(h, es);
    PrefixIsIntact(h, es, k);
    RechainedIsIntact(h, es[..k], events);
    VerifyIsLongestPrefix(h, Rechained(h, es[..k], events));
  }

  /** With no events, that is a log with entries missing at the end. */
  lemma TruncationIsNotReported(h: Hashing, es: seq<Entry>, n: nat)
    requires VerifyFrom(h, ZERO_HASH, es).0 && n <= |es|
    ensures VerifyFrom(h, ZERO_HASH, es[..n]) == (true, n)
  {
    RewrittenTailVerifies(h, es, n, []);
  }

  // ------------------------------------------------------------------ the object

  datatype Recorded = Recorded(entry: Entry) | TypeErrorRaised

  lemma EntriesLast(lines: seq<Line>, l: Line)
    ensures Entries(lines + [l]) == Entries(lines) + (if l.Json? then [l.entry] else [])
  {
    assert (lines + [l])[..|lines|] == lines;
  }

  lemma {:induction false} EntriesSplit(lines: seq<Line>, i: nat)
    requires i < |lines|
    ensures var rest := Entries(lines[i + 1..]);
            Entries(lines[i..]) == if lines[i].Json? then [lines[i].entry] + rest else rest
    decreases |lines|
  {
    var n := |lines| - 1;
    if i < n {
      EntriesSplit(lines[..n], i);
      assert lines[i..] == lines[..n][i..] + [lines[n]];
      assert lines[i + 1..] == lines[..n][i + 1..] + [lines[n]];
      EntriesLast(lines[..n][i..], lines[n]);
      EntriesLast(lines[..n][i + 1..], lines[n]);
    } else {
      assert lines[i..] == [] + [lines[n]];
      EntriesLast([], lines[n]);
    }
  }

  function Plus(v: (bool, nat), n: nat): (bool, nat) {
    (v.0, v.1 + n)
  }

  /** What the line at `i` adds to the verification of the lines after it. */
  lemma VerifyTurn(h: Hashing, prev: string, lines: seq<Line>, i: nat)
    requires i < |lines|
    ensures lines[i].Blank? ==> VerifyFrom(h, prev, Entries(lines[i..])) == VerifyFrom(h, prev, Entries(lines[i + 1..]))
    ensures lines[i].Json? && !Linked(h, prev, lines[i].entry) ==>
              VerifyFrom(h, prev, Entries(lines[i..])) == (false, 0)
    ensures lines[i].Json? && Linked(h, prev, lines[i].entry) ==>
              VerifyFrom(h, prev, Entries(lines[i..]))
              == Plus(VerifyFrom(h, HashOf(h, prev, lines[i].entry), Entries(lines[i + 1..])), 1)
  {
    EntriesSplit(lines, i);
    if lines[i].Json? {
      assert Entries(lines[i..])[1..] == Entries(lines[i + 1..]);
    }
  }

  /** `verify_chain` line by line, from line `i` on. */
  function VerifyLines(h: Hashing, prev: string, lines: seq<Line>, i: nat): (bool, nat)
    requires i <= |lines|
    decreases |lines| - i
  {
    if i == |lines| then (true, 0)
    else if lines[i].Blank? then VerifyLines(h, prev, lines, i + 1)
    else if !Linked(h, prev, lines[i].entry) then (false, 0)
    else Plus(VerifyLines(h, HashOf(h, prev, lines[i].entry), lines, i + 1), 1)
  }

  /** Blank lines make no difference. */
  lemma {:induction false} BlanksAreIgnored(h: Hashing, prev: string, lines: seq<Line>, i: nat)
    requires i <= |lines|
    ensures VerifyLines(h, prev, lines, i) == VerifyFrom(h, prev, Entries(lines[i..]))
    decreases |lines| - i
  {
    if i < |lines| {
      VerifyTurn(h, prev, lines, i);
      BlanksAreIgnored(h, prev, lines, i + 1);
      if lines[i].Json? {
        BlanksAreIgnored(h, HashOf(h, prev, lines[i].entry), lines, i + 1);
      }
    } else {
      assert lines[i..] == [];
    }
  }

  class AuditLog {
    const h: Hashing
    var lines: seq<Line>

    constructor (h: Hashing, lines: seq<Line>)
      ensures this.h == h && this.lines == lines
    {
      this.h, this.lines := h, lines;
    }

    method ReadLastHash() returns (prev: Value)
      ensures prev == LastHash(Entries(lines))
      ensures var es := Entries(lines);
              if es != [] && "hash" in es[|es| - 1] then prev == es[|es| - 1]["hash"] else prev.Str? && IsZeros(prev.s)
    {
      var last := Blank;
      var i := 0;
      while i < |lines|
        invariant 0 <= i <= |lines|
        invariant last.Blank? <==> Entries(lines[..i]) == []
        invariant last.Json? ==> last.entry == Entries(lines[..i])[|Entries(lines[..i])| - 1]
      {
        assert lines[..i + 1] == lines[..i] + [lines[i]];
        EntriesLast(lines[..i], lines[i]);
        if lines[i].Json? {
          last := lines[i];
        }
        i := i + 1;
      }
      assert lines[..i] == lines;
      prev := if last.Blank? then Str(ZERO_HASH) else StoredHash(last.entry, Str(ZERO_HASH));
    }

    /** The critical section of `record`; a stored hash that is not a string cannot be concatenated. */
    method Record(ts: Value, actor: string, action: string, detail: Value) returns (r: Recorded)
      modifies this
      ensures LastHash(old(Entries(lines))).Str? ==>
                && r == Recorded(NewEntry(h, LastHash(old(Entries(lines))).s, ts, actor, action, detail))
                && lines == old(lines) + [Json(r.entry)]
      ensures LastHash(old(Entries(lines))).Str? ==>
                Holds(h, r.entry, LastHash(old(Entries(lines))).s, ts, actor, action, detail)
      ensures !LastHash(old(Entries(lines))).Str? ==> r == TypeErrorRaised && lines == old(lines)
    {
      var prev := ReadLastHash();
      if !prev.Str? {
        return TypeErrorRaised;
      }
      var entry := NewBody(prev.s, ts, actor, action, detail);
      var body := h.canon(entry);
      entry := entry["hash" := Str(h.sha(prev.s + body))];
      lines := lines + [Json(entry)];
      EntryInPlain(h, prev.s, ts, actor, action, detail);
      return Recorded(entry);
    }

    /** The checks of one turn; `next` is the hash the chain goes on from. */
    method CheckEntry(prev: string, e: Entry) returns (linked: bool, next: string)
      ensures linked == Linked(h, prev, e)
      ensures linked ==> next == HashOf(h, prev, e)
    {
      var stored := StoredHash(e, Str(""));
      var entry := e - {"hash"};
      if "prev_hash" !in entry || entry["prev_hash"] != Str(prev) {
        return false, "";
      }
      if Str(h.sha(prev + h.canon(entry))) != stored {
        return false, "";
      }
      return true, stored.s;
    }

    method VerifyChain() returns (intact: bool, count: nat)
      ensures (intact, count) == VerifyFrom(h, ZERO_HASH, Entries(lines))
    {
      BlanksAreIgnored(h, ZERO_HASH, lines, 0);
      assert lines[0..] == lines;
      var prev := ZERO_HASH;
      var i := 0;
      count := 0;
      while i < |lines|
        invariant 0 <= i <= |lines|
        invariant VerifyLines(h, ZERO_HASH, lines, 0) == Plus(VerifyLines(h, prev, lines, i), count)
      {
        if lines[i].Json? {
          var linked, next := CheckEntry(prev, lines[i].entry);
          if !linked {
            return false, count;
          }
          prev := next;
          count := count + 1;
        }
        i := i + 1;
      }
      return true, count;
    }
  }
}
