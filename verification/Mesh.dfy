/**
  Signed broadcasts over a mesh of nodes (`_broadcast`, `_greet`, `mesh_event` and `mesh_hello` in
  `boddos/api/server.py`), as a transition system.

  Every node has its own clock and its own nonce cache. The network may drop, delay, reorder and
  duplicate requests, and may hand a request to a node or an endpoint it was not meant for; it does
  not alter them. JSON encoding and decoding of events are parameters.
*/
module Mesh {
  import opened Wrappers
  import opened MeshAuth

  type NodeId = nat
  type Event = map<string, string>

  /** What is fixed over a run: the shared key's configuration and each node's settings. */
  datatype Setup = Setup(
    auth: Config,
    peers: NodeId -> seq<NodeId>,
    broadcasting: NodeId -> bool,
    dumps: Event -> string,
    loads: string -> Option<Event>)

  /** Why a request was signed: entry `slot` of the peer list in broadcast `id`, or a greeting. */
  datatype Purpose = ForPeer(id: nat, slot: nat) | Greeting

  /** A request as it was signed, with the signer's clock reading and nonce. */
  datatype Sent = Sent(sender: NodeId, addressee: NodeId, purpose: Purpose, at: real, nonce: string, req: Request)

  /** An event on a node's bus: its own, or relayed from request `copy` under its `acceptance`-th acceptance. */
  datatype Origin = Local(id: nat) | Relayed(copy: nat, acceptance: nat)
  datatype Published = Published(event: Event, origin: Origin)

  /** A `_broadcast` coroutine: the entries of its node's peer list before `next` have been served. */
  datatype Broadcast = Broadcast(sender: NodeId, event: Event, next: nat)

  datatype State = State(
    broadcasts: seq<Broadcast>,
    sent: seq<Sent>,
    calls: map<NodeId, seq<Call>>,
    bus: map<NodeId, seq<Published>>)

  datatype Endpoint = EventEndpoint | HelloEndpoint

  datatype Action =
    | Begin(sender: NodeId, event: Event)
    | SendNext(id: nat, now: real, nonce: string)
    | Greet(sender: NodeId, addressee: NodeId, hello: Event, now: real, nonce: string)
    | Deliver(copy: nat, receiver: NodeId, endpoint: Endpoint, arrival: real)

  const INITIAL := State([], [], map[], map[])

  function CallsOf(s: State, n: NodeId): seq<Call> {
    if n in s.calls then s.calls[n] else []
  }

  function BusOf(s: State, n: NodeId): seq<Published> {
    if n in s.bus then s.bus[n] else []
  }

  function AcceptedBy(m: Setup, s: State, n: NodeId): seq<Acceptance> {
    Run(m.auth, CallsOf(s, n)).accepted
  }

  function Publish(s: State, n: NodeId, p: Published): State {
    s.(bus := s.bus[n := BusOf(s, n) + [p]])
  }

  function Signed(m: Setup, payload: Event, now: real, nonce: string): Request {
    Request(Sign(m.auth, m.dumps(payload), now, nonce), m.dumps(payload))
  }

  function Begun(s: State, sender: NodeId, event: Event): State {
    var s' := Publish(s, sender, Published(event, Local(|s.broadcasts|)));
    s'.(broadcasts := s.broadcasts + [Broadcast(sender, event, 0)])
  }

  function SentNext(m: Setup, s: State, id: nat, now: real, nonce: string): State {
    if id < |s.broadcasts| then
      var b := s.broadcasts[id];
      if m.broadcasting(b.sender) && b.next < |m.peers(b.sender)| then
        var copy := Sent(b.sender, m.peers(b.sender)[b.next], ForPeer(id, b.next), now, nonce,
                         Signed(m, b.event, now, nonce));
        s.(broadcasts := s.broadcasts[id := b.(next := b.next + 1)], sent := s.sent + [copy])
      else s
    else s
  }

  function Greeted(m: Setup, s: State, sender: NodeId, addressee: NodeId, hello: Event, now: real, nonce: string): State
  {
    s.(sent := s.sent + [Sent(sender, addressee, Greeting, now, nonce, Signed(m, hello, now, nonce))])
  }

  /** `_verify_mesh` followed by the handler. Nothing is sent. */
  function Delivered(m: Setup, s: State, copy: nat, receiver: NodeId, endpoint: Endpoint, arrival: real): State {
    if copy < |s.sent| then
      var req := s.sent[copy].req;
      var memory := Run(m.auth, CallsOf(s, receiver));
      var s' := s.(calls := s.calls[receiver := CallsOf(s, receiver) + [Call(req, arrival)]]);
      if VerifyStep(m.auth, memory.seen, req, arrival).0 == Accepted && endpoint == EventEndpoint then
        match m.loads(req.body)
        case None => s'
        case Some(event) =>
          Publish(s', receiver, Published(event["_relayed" := "true"], Relayed(copy, |memory.accepted|)))
      else s'
    else s
  }

  function Next(m: Setup, s: State, a: Action): State {
    match a
    case Begin(sender, event) => Begun(s, sender, event)
    case SendNext(id, now, nonce) => SentNext(m, s, id, now, nonce)
    case Greet(sender, addressee, hello, now, nonce) => Greeted(m, s, sender, addressee, hello, now, nonce)
    case Deliver(copy, receiver, endpoint, arrival) => Delivered(m, s, copy, receiver, endpoint, arrival)
  }

  function Exec(m: Setup, actions: seq<Action>): State {
    if actions == [] then INITIAL
    else Next(m, Exec(m, actions[..|actions| - 1]), actions[|actions| - 1])
  }

  // ------------------------------------------------------------------ sending

  /** A broadcast's copies are numbered by served peer-list entry, one each, addressed and filled from that entry. */
  ghost predicate SendingOk(m: Setup, s: State) {
    && (forall id :: 0 <= id < |s.broadcasts| ==>
          var b := s.broadcasts[id];
          b.next <= (if m.broadcasting(b.sender) then |m.peers(b.sender)| else 0))
    && (forall c :: 0 <= c < |s.sent| && s.sent[c].purpose.ForPeer? ==> CopyOk(m, s, s.sent[c]))
    && (forall c, d :: 0 <= c < d < |s.sent| && s.sent[c].purpose.ForPeer? ==> s.sent[c].purpose != s.sent[d].purpose)
  }

  predicate CopyOk(m: Setup, s: State, c: Sent)
    requires c.purpose.ForPeer?
  {
    && c.purpose.id < |s.broadcasts|
    && var b := s.broadcasts[c.purpose.id];
       && c.sender == b.sender && c.purpose.slot < b.next && c.purpose.slot < |m.peers(b.sender)|
       && c.addressee == m.peers(b.sender)[c.purpose.slot]
       && c.req.body == m.dumps(b.event)
  }

  lemma SendNextKeepsSendingOk(m: Setup, s: State, id: nat, now: real, nonce: string)
    requires SendingOk(m, s)
    ensures SendingOk(m, SentNext(m, s, id, now, nonce))
  {
    var s' := SentNext(m, s, id, now, nonce);
    forall c | 0 <= c < |s'.sent| && s'.sent[c].purpose.ForPeer? ensures CopyOk(m, s', s'.sent[c]) {
      if c < |s.sent| {
        assert CopyOk(m, s, s.sent[c]);
      }
    }
  }

  lemma NextKeepsSendingOk(m: Setup, s: State, a: Action)
    requires SendingOk(m, s)
    ensures SendingOk(m, Next(m, s, a))
  {
    if a.SendNext? {
      SendNextKeepsSendingOk(m, s, a.id, a.now, a.nonce);
    } else {
      var s' := Next(m, s, a);
      forall c | 0 <= c < |s'.sent| && s'.sent[c].purpose.ForPeer? ensures CopyOk(m, s', s'.sent[c]) {
        assert CopyOk(m, s, s.sent[c]);
      }
    }
  }

  lemma {:induction false} EveryRunIsSendingOk(m: Setup, actions: seq<Action>)
    ensures SendingOk(m, Exec(m, actions))
  {
    if actions != [] {
      EveryRunIsSendingOk(m, actions[..|actions| - 1]);
      NextKeepsSendingOk(m, Exec(m, actions[..|actions| - 1]), actions[|actions| - 1]);
    }
  }

  /** Every entry of the peer list before `next` has had its copy. */
  ghost predicate ServedOk(s: State) {
    forall id, slot: nat :: 0 <= id < |s.broadcasts| && slot < s.broadcasts[id].next
      ==> HasCopy(s.sent, ForPeer(id, slot))
  }

  ghost predicate HasCopy(sent: seq<Sent>, purpose: Purpose) {
    exists c :: 0 <= c < |sent| && sent[c].purpose == purpose
  }

  lemma HasCopyStays(sent: seq<Sent>, sent': seq<Sent>, purpose: Purpose)
    requires HasCopy(sent, purpose) && sent <= sent'
    ensures HasCopy(sent', purpose)
  {
    var c :| 0 <= c < |sent| && sent[c].purpose == purpose;
    assert sent'[c] == sent[c];
  }

  lemma NextKeepsServedOk(m: Setup, s: State, a: Action)
    requires ServedOk(s)
    ensures ServedOk(Next(m, s, a))
  {
    var s' := Next(m, s, a);
    forall id, slot: nat | 0 <= id < |s'.broadcasts| && slot < s'.broadcasts[id].next
      ensures HasCopy(s'.sent, ForPeer(id, slot))
    {
      if id < |s.broadcasts| && slot < s.broadcasts[id].next {
        HasCopyStays(s.sent, s'.sent, ForPeer(id, slot));
      } else {
        assert s'.sent[|s.sent|].purpose == ForPeer(id, slot);
      }
    }
  }

  /** A broadcast that has got through its peer list has sent a copy to every entry. */
  lemma {:induction false} EveryEntryIsServed(m: Setup, actions: seq<Action>)
    ensures ServedOk(Exec(m, actions))
  {
    if actions != [] {
      EveryEntryIsServed(m, actions[..|actions| - 1]);
      NextKeepsServedOk(m, Exec(m, actions[..|actions| - 1]), actions[|actions| - 1]);
    }
  }

  /** The run with every delivery struck out. */
  function Unheard(actions: seq<Action>): seq<Action> {
    if actions == [] then []
    else
      var a := actions[|actions| - 1];
      Unheard(actions[..|actions| - 1]) + (if a.Deliver? then [] else [a])
  }

  predicate SentAlike(s: State, t: State) {
    s.sent == t.sent && s.broadcasts == t.broadcasts
  }

  lemma StepsSendAlike(m: Setup, s: State, t: State, a: Action)
    requires SentAlike(s, t)
    ensures a.Deliver? ==> SentAlike(s, Next(m, t, a))
    ensures !a.Deliver? ==> SentAlike(Next(m, s, a), Next(m, t, a))
  {
  }

  lemma ExecLast(m: Setup, actions: seq<Action>, a: Action)
    ensures Exec(m, actions + [a]) == Next(m, Exec(m, actions), a)
  {
    assert (actions + [a])[..|actions|] == actions;
  }

  /** No receipt causes a send: what is sent is the same when no request ever arrives. */
  lemma {:induction false} ReceiptsSendNothing(m: Setup, actions: seq<Action>)
    ensures SentAlike(Exec(m, Unheard(actions)), Exec(m, actions))
  {
    if actions != [] {
      var before, a := actions[..|actions| - 1], actions[|actions| - 1];
      ReceiptsSendNothing(m, before);
      StepsSendAlike(m, Exec(m, Unheard(before)), Exec(m, before), a);
      if a.Deliver? {
        assert Unheard(actions) == Unheard(before);
      } else {
        ExecLast(m, Unheard(before), a);
      }
    }
  }

  // ------------------------------------------------------------------ receiving

  /** A relayed publication goes back to a sent request, under an acceptance of that request's nonce and timestamp. */
  ghost predicate RelayOk(m: Setup, sent: seq<Sent>, accepted: seq<Acceptance>, p: Published) {
    p.origin.Relayed? ==>
      && p.origin.copy < |sent| && p.origin.acceptance < |accepted|
      && var req := sent[p.origin.copy].req;
         var a := accepted[p.origin.acceptance];
         && a.nonce == Nonce(req) && m.auth.toInt(Stamp(req)) == Some(a.stamp)
         && m.loads(req.body).Some? && p.event == m.loads(req.body).value["_relayed" := "true"]
  }

  ghost predicate InOrder(bus: seq<Published>) {
    forall i, j :: 0 <= i < j < |bus| && bus[i].origin.Relayed? && bus[j].origin.Relayed?
      ==> bus[i].origin.acceptance < bus[j].origin.acceptance
  }

  ghost predicate RelaysOk(m: Setup, sent: seq<Sent>, accepted: seq<Acceptance>, bus: seq<Published>) {
    && (forall i :: 0 <= i < |bus| ==> RelayOk(m, sent, accepted, bus[i]))
    && InOrder(bus)
  }

  ghost predicate ReceivingOk(m: Setup, s: State, n: NodeId) {
    RelaysOk(m, s.sent, AcceptedBy(m, s, n), BusOf(s, n))
  }

  lemma RunGrows(cfg: Config, calls: seq<Call>, c: Call)
    ensures Run(cfg, calls + [c]) == Step(cfg, Run(cfg, calls), c)
  {
    assert (calls + [c])[..|calls|] == calls;
  }

  lemma RelaysStayOk(m: Setup, sent: seq<Sent>, sent': seq<Sent>, accepted: seq<Acceptance>, accepted': seq<Acceptance>,
                     bus: seq<Published>)
    requires RelaysOk(m, sent, accepted, bus) && sent <= sent' && accepted <= accepted'
    ensures RelaysOk(m, sent', accepted', bus)
  {
    forall i | 0 <= i < |bus| ensures RelayOk(m, sent', accepted', bus[i]) {
      assert RelayOk(m, sent, accepted, bus[i]);
    }
  }

  /** The bus gains a publication under an acceptance later than all before it. */
  lemma NewRelayIsOk(m: Setup, sent: seq<Sent>, accepted: seq<Acceptance>, bus: seq<Published>,
                     a: Acceptance, p: Published)
    requires RelaysOk(m, sent, accepted, bus)
    requires RelayOk(m, sent, accepted + [a], p) && p.origin.Relayed? && p.origin.acceptance == |accepted|
    ensures RelaysOk(m, sent, accepted + [a], bus + [p])
  {
    RelaysStayOk(m, sent, sent, accepted, accepted + [a], bus);
    forall i | 0 <= i < |bus| ensures bus[i].origin.Relayed? ==> bus[i].origin.acceptance < |accepted| {
      assert RelayOk(m, sent, accepted, bus[i]);
    }
  }

  lemma NewLocalIsOk(m: Setup, sent: seq<Sent>, accepted: seq<Acceptance>, bus: seq<Published>, p: Published)
    requires RelaysOk(m, sent, accepted, bus) && p.origin.Local?
    ensures RelaysOk(m, sent, accepted, bus + [p])
  {
  }

  lemma DeliverKeepsReceivingOk(m: Setup, s: State, copy: nat, receiver: NodeId, endpoint: Endpoint, arrival: real)
    requires ReceivingOk(m, s, receiver) && copy < |s.sent|
    ensures ReceivingOk(m, Delivered(m, s, copy, receiver, endpoint, arrival), receiver)
  {
    var req := s.sent[copy].req;
    var before := Run(m.auth, CallsOf(s, receiver));
    var c := Call(req, arrival);
    var s' := Delivered(m, s, copy, receiver, endpoint, arrival);
    RunGrows(m.auth, CallsOf(s, receiver), c);
    assert CallsOf(s', receiver) == CallsOf(s, receiver) + [c];
    if VerifyStep(m.auth, before.seen, req, arrival).0 == Accepted {
      var a := Latest(m.auth, c);
      assert AcceptedBy(m, s', receiver) == before.accepted + [a];
      if endpoint == EventEndpoint && m.loads(req.body).Some? {
        var p := Published(m.loads(req.body).value["_relayed" := "true"], Relayed(copy, |before.accepted|));
        NewRelayIsOk(m, s.sent, before.accepted, BusOf(s, receiver), a, p);
      } else {
        RelaysStayOk(m, s.sent, s.sent, before.accepted, before.accepted + [a], BusOf(s, receiver));
      }
    }
  }

  /** An action that is no delivery to this node. */
  lemma OthersKeepReceivingOk(m: Setup, s: State, a: Action, n: NodeId)
    requires ReceivingOk(m, s, n) && !(a.Deliver? && a.receiver == n)
    ensures ReceivingOk(m, Next(m, s, a), n)
  {
    var s' := Next(m, s, a);
    assert CallsOf(s', n) == CallsOf(s, n);
    if a.Begin? && a.sender == n {
      NewLocalIsOk(m, s.sent, AcceptedBy(m, s, n), BusOf(s, n), Published(a.event, Local(|s.broadcasts|)));
    } else {
      assert BusOf(s', n) == BusOf(s, n);
      RelaysStayOk(m, s.sent, s'.sent, AcceptedBy(m, s, n), AcceptedBy(m, s', n), BusOf(s, n));
    }
  }

  lemma NextKeepsReceivingOk(m: Setup, s: State, a: Action, n: NodeId)
    requires ReceivingOk(m, s, n)
    ensures ReceivingOk(m, Next(m, s, a), n)
  {
    if a.Deliver? && a.receiver == n {
      if a.copy < |s.sent| {
        DeliverKeepsReceivingOk(m, s, a.copy, a.receiver, a.endpoint, a.arrival);
      }
    } else {
      OthersKeepReceivingOk(m, s, a, n);
    }
  }

  lemma {:induction false} EveryRunIsReceivingOk(m: Setup, actions: seq<Action>, n: NodeId)
    ensures ReceivingOk(m, Exec(m, actions), n)
  {
    if actions != [] {
      EveryRunIsReceivingOk(m, actions[..|actions| - 1], n);
      NextKeepsReceivingOk(m, Exec(m, actions[..|actions| - 1]), actions[|actions| - 1], n);
    }
  }

  // ------------------------------------------------------------------ main results

  /** Each node's clock falls back by no more than its nonce cache tolerates. */
  ghost predicate ClocksOk(m: Setup, s: State) {
    forall n :: ClockTolerated(m.auth, CallsOf(s, n))
  }

  /** In every run, no node publishes the same signed request twice. */
  lemma PublishedAtMostOnce(m: Setup, actions: seq<Action>, n: NodeId, i: nat, j: nat)
    requires ClocksOk(m, Exec(m, actions))
    requires var bus := BusOf(Exec(m, actions), n);
             i < j < |bus| && bus[i].origin.Relayed? && bus[j].origin.Relayed?
    ensures var bus := BusOf(Exec(m, actions), n); bus[i].origin.copy != bus[j].origin.copy
  {
    var s := Exec(m, actions);
    var bus := BusOf(s, n);
    EveryRunIsReceivingOk(m, actions, n);
    NoDoubleAcceptance(m.auth, CallsOf(s, n));
    assert RelayOk(m, s.sent, AcceptedBy(m, s, n), bus[i]) && RelayOk(m, s.sent, AcceptedBy(m, s, n), bus[j]);
  }

  /** The places of broadcast `id` on a bus. */
  function Places(s: State, bus: seq<Published>, id: nat): set<nat> {
    set i: nat | i < |bus| && FromBroadcast(s, bus[i], id)
  }

  predicate FromBroadcast(s: State, p: Published, id: nat) {
    && p.origin.Relayed? && p.origin.copy < |s.sent|
    && s.sent[p.origin.copy].purpose.ForPeer? && s.sent[p.origin.copy].purpose.id == id
  }

  function SlotOf(s: State, p: Published, id: nat): nat
    requires FromBroadcast(s, p, id)
  {
    s.sent[p.origin.copy].purpose.slot
  }

  /** As many different slots as places need as many slots. */
  lemma {:induction false} InjectionFits(slotOf: map<nat, nat>, slots: set<nat>)
    requires forall i :: i in slotOf ==> slotOf[i] in slots
    requires forall i, j :: i in slotOf && j in slotOf && i != j ==> slotOf[i] != slotOf[j]
    ensures |slotOf.Keys| <= |slots|
    decreases |slotOf.Keys|
  {
    if slotOf.Keys != {} {
      var i :| i in slotOf.Keys;
      var rest := slotOf - {i};
      assert rest.Keys == slotOf.Keys - {i};
      InjectionFits(rest, slots - {slotOf[i]});
    }
  }

  function Below(n: nat): set<nat> {
    if n == 0 then {} else Below(n - 1) + {n - 1}
  }

  lemma {:induction false} BelowHolds(n: nat)
    ensures |Below(n)| == n && forall i: nat :: i in Below(n) <==> i < n
  {
    if n > 0 {
      BelowHolds(n - 1);
    }
  }

  /** A broadcast reaches any one bus at most as often as its sender has peers, and never when it is switched off. */
  lemma BroadcastIsBounded(m: Setup, actions: seq<Action>, n: NodeId, id: nat)
    requires ClocksOk(m, Exec(m, actions)) && id < |Exec(m, actions).broadcasts|
    ensures var s := Exec(m, actions);
            var sender := s.broadcasts[id].sender;
            |Places(s, BusOf(s, n), id)| <= if m.broadcasting(sender) then |m.peers(sender)| else 0
  {
    var s := Exec(m, actions);
    var bus := BusOf(s, n);
    var slots := Below(s.broadcasts[id].next);
    BelowHolds(s.broadcasts[id].next);
    EveryRunIsSendingOk(m, actions);
    forall i | i in Places(s, bus, id) ensures SlotOf(s, bus[i], id) in slots {
      assert CopyOk(m, s, s.sent[bus[i].origin.copy]);
    }
    forall i, j | i in Places(s, bus, id) && j in Places(s, bus, id) && i < j
      ensures SlotOf(s, bus[i], id) != SlotOf(s, bus[j], id)
    {
      PublishedAtMostOnce(m, actions, n, i, j);
      var c, d := bus[i].origin.copy, bus[j].origin.copy;
      assert c < d || d < c;
    }
    var slotOf := map i | i in Places(s, bus, id) :: SlotOf(s, bus[i], id);
    assert slotOf.Keys == Places(s, bus, id);
    InjectionFits(slotOf, slots);
  }

  /** What a receiver publishes for a broadcast is the sender's event, marked as relayed. */
  lemma RelayedEventIsTheBroadcast(m: Setup, actions: seq<Action>, n: NodeId, i: nat, id: nat)
    requires forall e :: m.loads(m.dumps(e)) == Some(e)
    requires i < |BusOf(Exec(m, actions), n)| && FromBroadcast(Exec(m, actions), BusOf(Exec(m, actions), n)[i], id)
    ensures id < |Exec(m, actions).broadcasts|
    ensures BusOf(Exec(m, actions), n)[i].event == Exec(m, actions).broadcasts[id].event["_relayed" := "true"]
  {
    var s := Exec(m, actions);
    var p := BusOf(s, n)[i];
    EveryRunIsSendingOk(m, actions);
    EveryRunIsReceivingOk(m, actions, n);
    assert RelayOk(m, s.sent, AcceptedBy(m, s, n), p) && CopyOk(m, s, s.sent[p.origin.copy]);
  }

  // ------------------------------------------------------------------ which deliveries are accepted

  /** Every call of `verify` on the node carries a sent request, and every sent request is as `sign` made it. */
  ghost predicate TrafficOk(m: Setup, s: State, n: NodeId) {
    && (forall c :: c in s.sent ==> c.req == Request(Sign(m.auth, c.req.body, c.at, c.nonce), c.req.body))
    && (forall c :: c in CallsOf(s, n) ==> WasSent(s, c.req))
  }

  ghost predicate WasSent(s: State, r: Request) {
    exists c :: c in s.sent && c.req == r
  }

  lemma WasSentStays(s: State, s': State, r: Request)
    requires s.sent <= s'.sent && WasSent(s, r)
    ensures WasSent(s', r)
  {
    var c :| c in s.sent && c.req == r;
    assert c in s'.sent;
  }

  lemma NextKeepsTrafficOk(m: Setup, s: State, a: Action, n: NodeId)
    requires TrafficOk(m, s, n)
    ensures TrafficOk(m, Next(m, s, a), n)
  {
    var s' := Next(m, s, a);
    assert s.sent <= s'.sent;
    forall c | c in CallsOf(s', n) ensures WasSent(s', c.req) {
      if c in CallsOf(s, n) {
        WasSentStays(s, s', c.req);
      } else {
        assert s.sent[a.copy] in s'.sent;
      }
    }
  }

  lemma {:induction false} EveryRunIsTrafficOk(m: Setup, actions: seq<Action>, n: NodeId)
    ensures TrafficOk(m, Exec(m, actions), n)
  {
    if actions != [] {
      EveryRunIsTrafficOk(m, actions[..|actions| - 1], n);
      NextKeepsTrafficOk(m, Exec(m, actions[..|actions| - 1]), actions[|actions| - 1], n);
    }
  }

  ghost predicate FreshNonces(s: State) {
    && (forall c :: c in s.sent ==> c.nonce != "")
    && (forall c, d :: c in s.sent && d in s.sent && c.nonce == d.nonce ==> c == d)
  }

  lemma SentIsSigned(m: Setup, c: Sent)
    requires Usable(m.auth) && c.nonce != ""
    requires c.req == Request(Sign(m.auth, c.req.body, c.at, c.nonce), c.req.body)
    ensures ValidlySigned(m.auth, c.req) && Nonce(c.req) == c.nonce
  {
    SignedIsAccepted(m.auth, c.req.body, c.nonce, c.at, map[], 0.0);
  }

  lemma FreshNoncesHaveOneStamp(m: Setup, s: State, calls: seq<Call>)
    requires Usable(m.auth) && FreshNonces(s)
    requires forall c :: c in s.sent ==> c.req == Request(Sign(m.auth, c.req.body, c.at, c.nonce), c.req.body)
    requires forall c :: c in calls ==> WasSent(s, c.req)
    ensures OneStampPerNonce(m.auth, calls)
  {
    forall i, j | 0 <= i < |calls| && 0 <= j < |calls| && Nonce(calls[i].req) == Nonce(calls[j].req)
      ensures calls[i].req == calls[j].req
    {
      assert calls[i] in calls && calls[j] in calls;
      var c :| c in s.sent && c.req == calls[i].req;
      var d :| d in s.sent && d.req == calls[j].req;
      SentIsSigned(m, c);
      SentIsSigned(m, d);
    }
  }

  /** The arrival is within the skew of the whole second at which the request was signed. */
  predicate WithinSkew(m: Setup, at: real, arrival: real) {
    Truncate(at) as real - m.auth.maxSkew <= arrival <= Truncate(at) as real + m.auth.maxSkew
  }

  lemma CacheDecides(cfg: Config, before: seq<Call>, c: Call)
    requires ClockTolerated(cfg, before + [c]) && OneStampPerNonce(cfg, before + [c])
    requires Screen(cfg, c.req, c.now) == Accepted
    ensures Nonce(c.req) in Run(cfg, before).seen <==> Nonce(c.req) in Nonces(Run(cfg, before).accepted)
  {
    var calls := before + [c];
    assert calls[..|calls| - 1] == before;
    CacheAnswersForAllNonces(cfg, calls);
    CachedIsAccepted(cfg, before);
  }

  lemma SentIsDecided(m: Setup, c: Sent, before: seq<Call>, arrival: real)
    requires Usable(m.auth) && c.nonce != ""
    requires c.req == Request(Sign(m.auth, c.req.body, c.at, c.nonce), c.req.body)
    requires ClockTolerated(m.auth, before + [Call(c.req, arrival)])
    requires OneStampPerNonce(m.auth, before + [Call(c.req, arrival)])
    ensures VerifyStep(m.auth, Run(m.auth, before).seen, c.req, arrival).0 == Accepted
            <==> WithinSkew(m, c.at, arrival) && c.nonce !in Nonces(Run(m.auth, before).accepted)
  {
    SignedIsAccepted(m.auth, c.req.body, c.nonce, c.at, Run(m.auth, before).seen, arrival);
    SignedIsAccepted(m.auth, c.req.body, c.nonce, c.at, map[], arrival);
    if WithinSkew(m, c.at, arrival) {
      CacheDecides(m.auth, before, Call(c.req, arrival));
    }
  }

  /**
    With fresh nonces, a node that is handed a sent request accepts it exactly when it arrives in
    the window and that request has not been accepted there before.
  */
  lemma DeliveryIsDecided(m: Setup, actions: seq<Action>, copy: nat, receiver: NodeId, arrival: real)
    requires var s := Exec(m, actions);
             && Usable(m.auth) && FreshNonces(s) && copy < |s.sent|
             && ClockTolerated(m.auth, CallsOf(s, receiver) + [Call(s.sent[copy].req, arrival)])
    ensures var s := Exec(m, actions);
            var c := s.sent[copy];
            VerifyStep(m.auth, Run(m.auth, CallsOf(s, receiver)).seen, c.req, arrival).0 == Accepted
            <==> WithinSkew(m, c.at, arrival) && c.nonce !in Nonces(AcceptedBy(m, s, receiver))
  {
    var s := Exec(m, actions);
    var c := s.sent[copy];
    EveryRunIsTrafficOk(m, actions, receiver);
    assert c in s.sent;
    FreshNoncesHaveOneStamp(m, s, CallsOf(s, receiver) + [Call(c.req, arrival)]);
    SentIsDecided(m, c, CallsOf(s, receiver), arrival);
  }

  /** Where an accepted and a refused delivery to the event endpoint leave the buses. */
  lemma BusAfterDelivery(m: Setup, s: State, copy: nat, receiver: NodeId, arrival: real, n: NodeId)
    requires copy < |s.sent|
    ensures var s' := Delivered(m, s, copy, receiver, EventEndpoint, arrival);
            var req, memory := s.sent[copy].req, Run(m.auth, CallsOf(s, receiver));
            BusOf(s', n) ==
            if n == receiver && VerifyStep(m.auth, memory.seen, req, arrival).0 == Accepted && m.loads(req.body).Some?
            then BusOf(s, n)
                 + [Published(m.loads(req.body).value["_relayed" := "true"], Relayed(copy, |memory.accepted|))]
            else BusOf(s, n)
  {
  }

  /**
    So an event is published for a delivered broadcast or greeting exactly when it is readable, arrives in the
    window and is new to the receiver; every other bus stays as it was.
  */
  lemma PublicationIsDecided(m: Setup, actions: seq<Action>, copy: nat, receiver: NodeId, arrival: real)
    requires var s := Exec(m, actions);
             && Usable(m.auth) && FreshNonces(s) && copy < |s.sent|
             && ClockTolerated(m.auth, CallsOf(s, receiver) + [Call(s.sent[copy].req, arrival)])
    ensures var s := Exec(m, actions);
            var s' := Exec(m, actions + [Deliver(copy, receiver, EventEndpoint, arrival)]);
            var c := s.sent[copy];
            var event := m.loads(c.req.body);
            && (if event.Some? && WithinSkew(m, c.at, arrival)
                   && c.nonce !in Nonces(AcceptedBy(m, s, receiver))
                then BusOf(s', receiver) == BusOf(s, receiver)
                       + [Published(event.value["_relayed" := "true"], Relayed(copy, |AcceptedBy(m, s, receiver)|))]
                else BusOf(s', receiver) == BusOf(s, receiver))
            && (forall n :: n != receiver ==> BusOf(s', n) == BusOf(s, n))
  {
    ExecLast(m, actions, Deliver(copy, receiver, EventEndpoint, arrival));
    DeliveryIsDecided(m, actions, copy, receiver, arrival);
    forall n {
      BusAfterDelivery(m, Exec(m, actions), copy, receiver, arrival, n);
    }
  }

  // ------------------------------------------------------------------ single steps in plain terms

  ghost predicate OnlyBusOf(s: State, s': State, n: NodeId, more: seq<Published>) {
    BusOf(s', n) == BusOf(s, n) + more && forall o :: o != n ==> BusOf(s', o) == BusOf(s, o)
  }

  /** Beginning a broadcast puts its event on the sender's own bus, and sends nothing yet. */
  lemma BeginInPlain(m: Setup, actions: seq<Action>, sender: NodeId, event: Event)
    ensures var s, s' := Exec(m, actions), Exec(m, actions + [Begin(sender, event)]);
            && OnlyBusOf(s, s', sender, [Published(event, Local(|s.broadcasts|))])
            && s'.sent == s.sent && s'.broadcasts == s.broadcasts + [Broadcast(sender, event, 0)]
  {
    ExecLast(m, actions, Begin(sender, event));
  }

  /** The copy was signed at `now` for this entry of the broadcast's peer list. */
  predicate IsCopyFor(m: Setup, c: Sent, b: Broadcast, id: nat, now: real, nonce: string) {
    && b.next < |m.peers(b.sender)| && c.addressee == m.peers(b.sender)[b.next] && c.purpose == ForPeer(id, b.next)
    && c.req == Request(Sign(m.auth, m.dumps(b.event), now, nonce), m.dumps(b.event))
  }

  lemma SentNextInPlain(m: Setup, s: State, id: nat, now: real, nonce: string)
    requires id < |s.broadcasts|
    ensures var s', b := SentNext(m, s, id, now, nonce), s.broadcasts[id];
            if m.broadcasting(b.sender) && b.next < |m.peers(b.sender)| then
              && |s'.sent| == |s.sent| + 1 && s.sent < s'.sent && IsCopyFor(m, s'.sent[|s.sent|], b, id, now, nonce)
              && s'.broadcasts == s.broadcasts[id := Broadcast(b.sender, b.event, b.next + 1)]
              && s'.bus == s.bus && s'.calls == s.calls
            else s' == s
  {
  }

  /** A turn of an unfinished broadcast sends the event, signed there and then, to the next entry of the peer list. */
  lemma SendInPlain(m: Setup, actions: seq<Action>, id: nat, now: real, nonce: string)
    requires id < |Exec(m, actions).broadcasts|
    ensures var s, s' := Exec(m, actions), Exec(m, actions + [SendNext(id, now, nonce)]);
            var b := s.broadcasts[id];
            if m.broadcasting(b.sender) && b.next < |m.peers(b.sender)| then
              && |s'.sent| == |s.sent| + 1 && s.sent < s'.sent && IsCopyFor(m, s'.sent[|s.sent|], b, id, now, nonce)
              && s'.broadcasts == s.broadcasts[id := Broadcast(b.sender, b.event, b.next + 1)]
              && s'.bus == s.bus && s'.calls == s.calls
            else s' == s
  {
    ExecLast(m, actions, SendNext(id, now, nonce));
    SentNextInPlain(m, Exec(m, actions), id, now, nonce);
  }

  /** A greeting is one signed request to its addressee, and touches no bus. */
  lemma GreetInPlain(m: Setup, actions: seq<Action>, sender: NodeId, addressee: NodeId, hello: Event,
                     now: real, nonce: string)
    ensures var s, s' := Exec(m, actions), Exec(m, actions + [Greet(sender, addressee, hello, now, nonce)]);
            && |s'.sent| == |s.sent| + 1 && s.sent < s'.sent && s'.bus == s.bus && s'.calls == s.calls
            && s'.broadcasts == s.broadcasts
            && var copy := s'.sent[|s.sent|];
               && copy.sender == sender && copy.addressee == addressee && copy.purpose == Greeting
               && copy.req == Request(Sign(m.auth, m.dumps(hello), now, nonce), m.dumps(hello))
  {
    ExecLast(m, actions, Greet(sender, addressee, hello, now, nonce));
  }

  /** A request handed to the greeting endpoint is verified like any other, and puts nothing on any bus. */
  lemma HelloInPlain(m: Setup, actions: seq<Action>, copy: nat, receiver: NodeId, arrival: real)
    requires copy < |Exec(m, actions).sent|
    ensures var s, s' := Exec(m, actions), Exec(m, actions + [Deliver(copy, receiver, HelloEndpoint, arrival)]);
            && s'.bus == s.bus && s'.sent == s.sent && s'.broadcasts == s.broadcasts
            && CallsOf(s', receiver) == CallsOf(s, receiver) + [Call(s.sent[copy].req, arrival)]
            && (forall n :: n != receiver ==> CallsOf(s', n) == CallsOf(s, n))
  {
    ExecLast(m, actions, Deliver(copy, receiver, HelloEndpoint, arrival));
  }
}
