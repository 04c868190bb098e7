/** The event bus of `boddos/mesh/bus.py`: a set of subscriber queues of 100 slots. */
module Bus {
  const SLOTS: nat := 100

  /** `put_nowait`, with `QueueFull` swallowed. */
  function Offer<E>(items: seq<E>, e: E): seq<E> {
    if |items| < SLOTS then items + [e] else items
  }

  class Queue<E> {
    var items: seq<E>

    constructor ()
      ensures items == []
    {
      items := [];
    }

    method PutNowait(e: E) returns (full: bool)
      modifies this
      ensures full == (|old(items)| >= SLOTS) && items == Offer(old(items), e)
    {
      full := |items| >= SLOTS;
      if !full {
        items := items + [e];
      }
    }

    /** `get`, once there is something to get. */
    method Get() returns (e: E)
      requires items != []
      modifies this
      ensures [e] + items == old(items)
    {
      e := items[0];
      items := items[1..];
    }
  }

  /** One queue as the bus sees it. Reading may go on after unsubscribing. */
  datatype Sub<E> = Sub(onBus: bool, items: seq<E>)

  function Published<E>(s: Sub<E>, e: E): Sub<E> {
    if s.onBus then s.(items := Offer(s.items, e)) else s
  }

  class EventBus<E> {
    var subs: set<Queue<E>>

    function View(q: Queue<E>): Sub<E>
      reads this, q
    {
      Sub(q in subs, q.items)
    }

    constructor ()
      ensures subs == {}
    {
      subs := {};
    }

    method Subscribe() returns (q: Queue<E>)
      modifies this
      ensures fresh(q) && View(q) == Sub(true, [])
      ensures forall p: Queue<E> :: old(allocated(p)) ==> View(p) == old(View(p))
    {
      q := new Queue();
      subs := subs + {q};
    }

    method Unsubscribe(q: Queue<E>)
      modifies this
      ensures forall p: Queue<E> :: old(allocated(p)) ==>
        View(p) == if p == q then old(View(p)).(onBus := false) else old(View(p))
    {
      subs := subs - {q};
    }

    /** Every subscriber's queue, and no other, is offered the event. */
    method Publish(e: E)
      modifies subs
      ensures forall p: Queue<E> :: old(allocated(p)) ==> View(p) == Published(old(View(p)), e)
    {
      var todo := subs;
      while todo != {}
        modifies subs
        invariant todo <= subs
        invariant forall q :: q in subs ==> q.items == if q in todo then old(q.items) else Offer(old(q.items), e)
        decreases todo
      {
        var q :| q in todo;
        todo := todo - {q};
        var _ := q.PutNowait(e);
      }
    }
  }

  // ------------------------------------------------------------------ runs

  datatype Action<E> = Subscribe(q: nat) | Unsubscribe(q: nat) | Publish(e: E) | Get(q: nat)

  type State<E> = map<nat, Sub<E>>

  function NextOf<E>(s: Sub<E>, a: Action<E>, q: nat): Sub<E> {
    match a
    case Subscribe(_) => s
    case Unsubscribe(p) => if p == q then s.(onBus := false) else s
    case Publish(e) => Published(s, e)
    case Get(p) => if p == q && s.items != [] then s.(items := s.items[1..]) else s
  }

  /** A queue comes into being when it is first subscribed. */
  function Next<E>(s: State<E>, a: Action<E>): State<E> {
    var moved := map q | q in s :: NextOf(s[q], a, q);
    if a.Subscribe? && a.q !in s then moved[a.q := Sub(true, [])] else moved
  }

  function Run<E>(actions: seq<Action<E>>): State<E> {
    if actions == [] then map[] else Next(Run(actions[..|actions| - 1]), actions[|actions| - 1])
  }

  function SubOf<E>(s: State<E>, q: nat): Sub<E> {
    if q in s then s[q] else Sub(false, [])
  }

  /** What the owner of a queue has got out of it. */
  function Received<E>(actions: seq<Action<E>>, q: nat): seq<E> {
    if actions == [] then []
    else
      var before, a := actions[..|actions| - 1], actions[|actions| - 1];
      var items := SubOf(Run(before), q).items;
      if a == Get(q) && items != [] then Received(before, q) + [items[0]] else Received(before, q)
  }

  predicate HasRoom<E>(s: Sub<E>) {
    s.onBus && |s.items| < 100
  }

  /** Publication `k` of the run finds the queue on the bus with a free slot. */
  ghost predicate Takes<E>(actions: seq<Action<E>>, k: nat, q: nat)
    requires k < |actions|
  {
    actions[k].Publish? && HasRoom(SubOf(Run(actions[..k]), q))
  }

  /** The events of these publications. */
  function Pick<E>(actions: seq<Action<E>>, kept: seq<nat>): seq<E>
    requires forall i :: 0 <= i < |kept| ==> kept[i] < |actions| && actions[kept[i]].Publish?
  {
    seq(|kept|, i requires 0 <= i < |kept| => actions[kept[i]].e)
  }

  ghost predicate Increasing(kept: seq<nat>) {
    forall i, j :: 0 <= i < j < |kept| ==> kept[i] < kept[j]
  }

  /** These are, in order, exactly the publications that the queue takes. */
  ghost predicate AreTaken<E>(actions: seq<Action<E>>, q: nat, kept: seq<nat>) {
    && Increasing(kept)
    && (forall i :: 0 <= i < |kept| ==> kept[i] < |actions| && Takes(actions, kept[i], q))
    && (forall k :: 0 <= k < |actions| && Takes(actions, k, q) ==> k in kept)
  }

  lemma RunLast<E>(actions: seq<Action<E>>, a: Action<E>, q: nat)
    ensures Run(actions + [a]) == Next(Run(actions), a)
    ensures var items := SubOf(Run(actions), q).items;
            Received(actions + [a], q) ==
            if a == Get(q) && items != [] then Received(actions, q) + [items[0]] else Received(actions, q)
  {
    assert (actions + [a])[..|actions|] == actions;
  }

  lemma TakesBefore<E>(actions: seq<Action<E>>, a: Action<E>, k: nat, q: nat)
    requires k <= |actions|
    ensures Takes(actions + [a], k, q) <==>
            if k < |actions| then Takes(actions, k, q) else a.Publish? && HasRoom(SubOf(Run(actions), q))
  {
    assert (actions + [a])[..k] == actions[..k];
    assert actions[..|actions|] == actions;
  }

  /** Publications before the last one are taken in the longer run exactly when they were in the shorter. */
  lemma TakesBeforeAll<E>(actions: seq<Action<E>>, a: Action<E>, q: nat)
    ensures forall k :: 0 <= k < |actions| ==> (Takes(actions + [a], k, q) <==> Takes(actions, k, q))
    ensures Takes(actions + [a], |actions|, q) <==> a.Publish? && HasRoom(SubOf(Run(actions), q))
  {
    forall k | 0 <= k < |actions| ensures Takes(actions + [a], k, q) <==> Takes(actions, k, q) {
      TakesBefore(actions, a, k, q);
    }
    TakesBefore(actions, a, |actions|, q);
  }

  lemma NotTakenLast<E>(actions: seq<Action<E>>, a: Action<E>, q: nat, kept: seq<nat>)
    requires AreTaken(actions, q, kept) && !(a.Publish? && HasRoom(SubOf(Run(actions), q)))
    ensures AreTaken(actions + [a], q, kept) && Pick(actions + [a], kept) == Pick(actions, kept)
  {
    TakesBeforeAll(actions, a, q);
  }

  lemma PickLast<E>(actions: seq<Action<E>>, a: Action<E>, kept: seq<nat>)
    requires a.Publish?
    requires forall i :: 0 <= i < |kept| ==> kept[i] < |actions| && actions[kept[i]].Publish?
    ensures var longer, kept' := actions + [a], kept + [|actions|];
            && (forall i :: 0 <= i < |kept'| ==> kept'[i] < |longer| && longer[kept'[i]].Publish?)
            && Pick(longer, kept') == Pick(actions, kept) + [a.e]
  {
  }

  lemma TakenLast<E>(actions: seq<Action<E>>, a: Action<E>, q: nat, kept: seq<nat>)
    requires AreTaken(actions, q, kept) && a.Publish? && HasRoom(SubOf(Run(actions), q))
    ensures AreTaken(actions + [a], q, kept + [|actions|])
  {
    TakesBeforeAll(actions, a, q);
    var kept' := kept + [|actions|];
    assert kept'[|kept|] == |actions|;
    assert Increasing(kept');
    forall k | 0 <= k < |actions| && Takes(actions, k, q) ensures k in kept' {
      var i :| 0 <= i < |kept| && kept[i] == k;
      assert kept'[i] == k;
    }
  }

  lemma SubLast<E>(actions: seq<Action<E>>, a: Action<E>, q: nat)
    ensures var s := SubOf(Run(actions), q);
            SubOf(Run(actions + [a]), q) ==
            if a == Action.Subscribe(q) && q !in Run(actions) then Sub(true, []) else NextOf(s, a, q)
  {
    RunLast(actions, a, q);
  }

  /** One action moves at most one event from pending to received, or appends one that has room. */
  lemma FlowLast<E>(actions: seq<Action<E>>, a: Action<E>, q: nat)
    requires |SubOf(Run(actions), q).items| <= SLOTS
    ensures var flow := Received(actions, q) + SubOf(Run(actions), q).items;
            Received(actions + [a], q) + SubOf(Run(actions + [a]), q).items ==
            if a.Publish? && HasRoom(SubOf(Run(actions), q)) then flow + [a.e] else flow
    ensures |SubOf(Run(actions + [a]), q).items| <= SLOTS
  {
    RunLast(actions, a, q);
    SubLast(actions, a, q);
    var got, items := Received(actions, q), SubOf(Run(actions), q).items;
    if a == Get(q) && items != [] {
      assert got + items == got + [items[0]] + items[1..];
    }
    if a.Publish? {
      assert got + (items + [a.e]) == got + items + [a.e];
    }
  }

  ghost predicate Delivered<E>(actions: seq<Action<E>>, q: nat, kept: seq<nat>) {
    && AreTaken(actions, q, kept)
    && Received(actions, q) + SubOf(Run(actions), q).items == Pick(actions, kept)
    && |SubOf(Run(actions), q).items| <= SLOTS
  }

  lemma DeliveryLast<E>(actions: seq<Action<E>>, a: Action<E>, q: nat, kept: seq<nat>)
    requires Delivered(actions, q, kept)
    ensures Delivered(actions + [a], q,
                      if a.Publish? && HasRoom(SubOf(Run(actions), q)) then kept + [|actions|] else kept)
  {
    FlowLast(actions, a, q);
    if a.Publish? && HasRoom(SubOf(Run(actions), q)) {
      TakenLast(actions, a, q, kept);
      PickLast(actions, a, kept);
    } else {
      NotTakenLast(actions, a, q, kept);
    }
  }

  /**
    What a subscriber has received followed by what is pending is, in order and once each, the events of exactly
    those publications that found it on the bus with fewer than 100 pending; and no more than 100 ever are.
  */
  lemma {:induction false} Delivery<E>(actions: seq<Action<E>>, q: nat) returns (kept: seq<nat>)
    ensures AreTaken(actions, q, kept)
    ensures Received(actions, q) + SubOf(Run(actions), q).items == Pick(actions, kept)
    ensures |SubOf(Run(actions), q).items| <= 100
  {
    kept := [];
    if actions != [] {
      var before, a := actions[..|actions| - 1], actions[|actions| - 1];
      assert actions == before + [a];
      kept := Delivery(before, q);
      DeliveryLast(before, a, q, kept);
      kept := if a.Publish? && HasRoom(SubOf(Run(before), q)) then kept + [|before|] else kept;
    }
  }

  /** First subscribed by action `k`, and not unsubscribed since. */
  ghost predicate SubscribedAt<E(!new)>(actions: seq<Action<E>>, q: nat, k: nat) {
    && k < |actions| && actions[k] == Action.Subscribe(q)
    && (forall i :: 0 <= i < k ==> actions[i] != Action.Subscribe(q))
    && (forall i :: k < i < |actions| ==> actions[i] != Action.Unsubscribe(q))
  }

  ghost predicate Known<E(!new)>(actions: seq<Action<E>>, q: nat) {
    Action.Subscribe(q) in actions
  }

  lemma SubscribedLast<E(!new)>(actions: seq<Action<E>>, a: Action<E>, q: nat, k: nat)
    ensures k < |actions| ==>
              (SubscribedAt(actions + [a], q, k) <==> SubscribedAt(actions, q, k) && a != Action.Unsubscribe(q))
    ensures k >= |actions| ==>
              (SubscribedAt(actions + [a], q, k) <==>
               k == |actions| && a == Action.Subscribe(q) && Action.Subscribe(q) !in actions)
  {
    var longer := actions + [a];
    assert longer[|actions|] == a;
    assert forall i :: 0 <= i < |actions| ==> longer[i] == actions[i];
  }

  /** A queue is on the bus in a run exactly when it has been subscribed and not unsubscribed since. */
  lemma {:induction false} OnBusIsSubscribed<E(!new)>(actions: seq<Action<E>>, q: nat)
    ensures q in Run(actions) <==> Known(actions, q)
    ensures SubOf(Run(actions), q).onBus <==> exists k: nat :: SubscribedAt(actions, q, k)
  {
    if actions != [] {
      var before, a := actions[..|actions| - 1], actions[|actions| - 1];
      assert actions == before + [a];
      OnBusIsSubscribed(before, q);
      RunLast(before, a, q);
      SubLast(before, a, q);
      forall k: nat
        ensures k < |before| ==>
                  (SubscribedAt(actions, q, k) <==> SubscribedAt(before, q, k) && a != Action.Unsubscribe(q))
        ensures k >= |before| ==>
                  (SubscribedAt(actions, q, k) <==>
                   k == |before| && a == Action.Subscribe(q) && !Known(before, q))
      {
        SubscribedLast(before, a, q, k);
      }
      if a == Action.Subscribe(q) && !Known(before, q) {
        assert SubscribedAt(actions, q, |before|);
      }
    }
  }

  // ------------------------------------------------------------------ isolation

  predicate Concerns<E>(a: Action<E>, q: nat) {
    a.Publish? || a.q == q
  }

  /** The run without the other subscribers' actions. */
  function Own<E>(actions: seq<Action<E>>, q: nat): seq<Action<E>> {
    if actions == [] then []
    else
      var before, a := actions[..|actions| - 1], actions[|actions| - 1];
      if Concerns(a, q) then Own(before, q) + [a] else Own(before, q)
  }

  lemma OwnLast<E>(actions: seq<Action<E>>, a: Action<E>, q: nat)
    ensures Own(actions + [a], q) == if Concerns(a, q) then Own(actions, q) + [a] else Own(actions, q)
  {
    assert (actions + [a])[..|actions|] == actions;
  }

  /** The run `own` looks the same as `actions` to queue `q`. */
  ghost predicate SameFor<E>(own: seq<Action<E>>, actions: seq<Action<E>>, q: nat) {
    && (q in Run(own) <==> q in Run(actions))
    && SubOf(Run(own), q) == SubOf(Run(actions), q)
    && Received(own, q) == Received(actions, q)
  }

  lemma SameForLast<E>(own: seq<Action<E>>, actions: seq<Action<E>>, a: Action<E>, q: nat)
    requires SameFor(own, actions, q)
    ensures SameFor(if Concerns(a, q) then own + [a] else own, actions + [a], q)
  {
    RunLast(actions, a, q);
    if Concerns(a, q) {
      RunLast(own, a, q);
    }
  }

  /** Another subscriber's backlog, or its coming and going, changes nothing for a queue. */
  lemma {:induction false} Isolation<E>(actions: seq<Action<E>>, q: nat)
    ensures q in Run(Own(actions, q)) <==> q in Run(actions)
    ensures SubOf(Run(Own(actions, q)), q) == SubOf(Run(actions), q)
    ensures Received(Own(actions, q), q) == Received(actions, q)
  {
    if actions != [] {
      var before, a := actions[..|actions| - 1], actions[|actions| - 1];
      assert actions == before + [a];
      Isolation(before, q);
      OwnLast(before, a, q);
      SameForLast(Own(before, q), before, a, q);
    }
  }
}
