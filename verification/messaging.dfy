/** The synchronous topic-based publish/subscribe bus (app/messaging.py).

    Handlers are opaque tags of type `H`; what a handler does when it is
    invoked is supplied by the caller as a total function `invoke`, so that
    the bus itself knows nothing of the bookstore. A publish snapshots the
    topic's handler list, then folds `invoke` over that snapshot, and also
    returns the trace of deliveries it made.
 */
module Messaging {

  /** The four topics the bookstore uses (app/messaging.py:15-18). */
  const PurchaseRequest: string := "purchase_request"
  const RestockRequest: string := "restock_request"
  const PurchaseOk: string := "purchase_ok"
  const PurchaseFail: string := "purchase_fail"

  /** `subs`: topic -> handlers in subscription order (the `defaultdict(list)`). */
  datatype Bus<H> = Bus(subs: map<string, seq<H>>)

  /** One handler invocation made by a publish. */
  datatype Delivery<H, P> = Delivery(handler: H, payload: P)

  function EmptyBus<H>(): Bus<H>
  {
    Bus(map[])
  }

  /** The handler list of a topic, `subs.get(topic, [])`: a read that never
      creates an entry. */
  function Handlers<H>(b: Bus<H>, topic: string): seq<H>
  {
    if topic in b.subs then b.subs[topic] else []
  }

  /** `subscribe(topic, handler)`: append at the end of that topic's list. */
  function Subscribe<H>(b: Bus<H>, topic: string, h: H): (r: Bus<H>)
    ensures Handlers(r, topic) == Handlers(b, topic) + [h]
    ensures r.subs.Keys == b.subs.Keys + {topic}
    ensures forall t :: t != topic ==> Handlers(r, t) == Handlers(b, t)
  {
    Bus(b.subs[topic := Handlers(b, topic) + [h]])
  }

  /** Subscribes `hs` to `topic`, one after another. */
  function SubscribeEach<H>(b: Bus<H>, topic: string, hs: seq<H>): Bus<H>
    decreases |hs|
  {
    if |hs| == 0 then b else SubscribeEach(Subscribe(b, topic, hs[0]), topic, hs[1..])
  }

  /** The state reached by performing the deliveries of a trace, first to
      last, starting from `s`. */
  function Replay<S, H, P>(t: seq<Delivery<H, P>>, s: S, invoke: (S, H, P) -> S): S
    decreases |t|
  {
    if |t| == 0 then s else Replay(t[1..], invoke(s, t[0].handler, t[0].payload), invoke)
  }

  /** Invokes every handler of `hs` once, first to last, each with the same
      payload, threading the state through: the final state is the one its
      own trace of deliveries produces when performed in order. */
  function Dispatch<S, H, P>(hs: seq<H>, payload: P, s: S, invoke: (S, H, P) -> S)
    : (r: (S, seq<Delivery<H, P>>))
    ensures |r.1| == |hs|
    ensures forall i :: 0 <= i < |hs| ==> r.1[i] == Delivery(hs[i], payload)
    ensures r.0 == Replay(r.1, s, invoke)
    decreases |hs|
  {
    if |hs| == 0 then (s, [])
    else
      var rest := Dispatch(hs[1..], payload, invoke(s, hs[0], payload), invoke);
      assert ([Delivery(hs[0], payload)] + rest.1)[1..] == rest.1;
      (rest.0, [Delivery(hs[0], payload)] + rest.1)
  }

  /** `publish(topic, payload)`: the handler list is read from `b` once, before
      any handler runs, so whatever the handlers do to the state `s` (including
      subscribing) cannot change the pass in progress. */
  function Publish<S, H, P>(b: Bus<H>, topic: string, payload: P, s: S, invoke: (S, H, P) -> S)
    : (r: (S, seq<Delivery<H, P>>))
    ensures |r.1| == |Handlers(b, topic)|
    ensures forall i :: 0 <= i < |r.1| ==> r.1[i] == Delivery(Handlers(b, topic)[i], payload)
    ensures r.0 == Replay(r.1, s, invoke)
    ensures topic !in b.subs ==> r == (s, [])
  {
    Dispatch(Handlers(b, topic), payload, s, invoke)
  }

  /** A new bus has no handlers on any topic, so a publish on it reaches
      nobody and leaves the state as it was. */
  lemma EmptyBusIsSilent<S, H, P>(topic: string, payload: P, s: S, invoke: (S, H, P) -> S)
    ensures Handlers(EmptyBus<H>(), topic) == []
    ensures Publish(EmptyBus<H>(), topic, payload, s, invoke) == (s, [])
  {
  }

  /** Dispatching a concatenation is dispatching the first part, then the
      second from the state the first part left. */
  lemma {:induction false} DispatchAppend<S, H, P>(hs: seq<H>, ks: seq<H>, payload: P, s: S, invoke: (S, H, P) -> S)
    ensures Dispatch(hs + ks, payload, s, invoke).0
         == Dispatch(ks, payload, Dispatch(hs, payload, s, invoke).0, invoke).0
    decreases |hs|
  {
    if |hs| == 0 {
      assert hs + ks == ks;
    } else {
      assert (hs + ks)[1..] == hs[1..] + ks;
      DispatchAppend(hs[1..], ks, payload, invoke(s, hs[0], payload), invoke);
    }
  }

  /** A property of the state that every handler of the list keeps is kept by
      the whole dispatch. */
  lemma {:induction false} DispatchPreserves<S, H, P>(hs: seq<H>, payload: P, s: S, invoke: (S, H, P) -> S, keep: S -> bool)
    requires keep(s)
    requires forall x, h :: h in hs && keep(x) ==> keep(invoke(x, h, payload))
    ensures keep(Dispatch(hs, payload, s, invoke).0)
    decreases |hs|
  {
    if |hs| > 0 {
      assert hs[0] in hs;
      forall x, h | h in hs[1..] && keep(x) ensures keep(invoke(x, h, payload)) {
        assert h in hs;
      }
      DispatchPreserves(hs[1..], payload, invoke(s, hs[0], payload), invoke, keep);
    }
  }

  /** After subscribing `hs` in order, the topic's list ends with exactly `hs`
      and no other topic's list has moved. */
  lemma {:induction false} SubscribeEachAppends<H>(b: Bus<H>, topic: string, hs: seq<H>)
    ensures Handlers(SubscribeEach(b, topic, hs), topic) == Handlers(b, topic) + hs
    ensures forall t :: t != topic ==> Handlers(SubscribeEach(b, topic, hs), t) == Handlers(b, t)
    decreases |hs|
  {
    if |hs| > 0 {
      SubscribeEachAppends(Subscribe(b, topic, hs[0]), topic, hs[1..]);
      assert Handlers(b, topic) + [hs[0]] + hs[1..] == Handlers(b, topic) + hs;
    }
  }

  /** Publishing on a topic first subscribed to by `hs` (in that order)
      delivers the payload to exactly `hs`, in subscription order. */
  lemma PublishFollowsSubscriptionOrder<S, H, P>(topic: string, hs: seq<H>, payload: P, s: S, invoke: (S, H, P) -> S)
    ensures Publish(SubscribeEach(EmptyBus(), topic, hs), topic, payload, s, invoke).1
         == seq(|hs|, i requires 0 <= i < |hs| => Delivery(hs[i], payload))
  {
    SubscribeEachAppends(EmptyBus<H>(), topic, hs);
  }

  /** A handler that subscribes `late` to `topic` each time it is invoked. */
  function LateSubscriber<H, P>(topic: string, late: H): (Bus<H>, H, P) -> Bus<H>
  {
    (x: Bus<H>, h: H, p: P) => Subscribe(x, topic, late)
  }

  /** n copies of `h`. */
  function Repeat<H>(h: H, n: nat): (r: seq<H>)
    ensures |r| == n
    ensures forall i :: 0 <= i < n ==> r[i] == h
  {
    if n == 0 then [] else [h] + Repeat(h, n - 1)
  }

  lemma {:induction false} LateSubscriptionsAccumulate<H, P>(hs: seq<H>, payload: P, x: Bus<H>, topic: string, late: H)
    ensures Handlers(Dispatch(hs, payload, x, LateSubscriber<H, P>(topic, late)).0, topic)
         == Handlers(x, topic) + Repeat(late, |hs|)
    decreases |hs|
  {
    if |hs| > 0 {
      var f := LateSubscriber<H, P>(topic, late);
      LateSubscriptionsAccumulate(hs[1..], payload, f(x, hs[0], payload), topic, late);
      assert [late] + Repeat(late, |hs| - 1) == Repeat(late, |hs|);
    }
  }

  /** The snapshot rule: when every handler of a topic subscribes a newcomer
      to that same topic during the pass, the newcomers do not fire in that
      pass; they are only appended to the list for later publishes. */
  lemma PublishSnapshotsHandlers<H, P>(b: Bus<H>, topic: string, payload: P, late: H)
    ensures var r := Publish(b, topic, payload, b, LateSubscriber<H, P>(topic, late));
            && |r.1| == |Handlers(b, topic)|
            && (forall i :: 0 <= i < |r.1| ==> r.1[i].handler == Handlers(b, topic)[i])
            && Handlers(r.0, topic) == Handlers(b, topic) + Repeat(late, |Handlers(b, topic)|)
  {
    LateSubscriptionsAccumulate(Handlers(b, topic), payload, b, topic, late);
  }

  /** `publish` never alters the subscription lists: when no handler touches
      the bus held in the state, the bus after the pass is the bus before. */
  lemma PublishKeepsSubscriptions<S, H, P>(b: Bus<H>, topic: string, payload: P, s: S,
                                           invoke: (S, H, P) -> S, busOf: S -> Bus<H>)
    requires busOf(s) == b
    requires forall x, h :: busOf(invoke(x, h, payload)) == busOf(x)
    ensures busOf(Publish(b, topic, payload, s, invoke).0) == b
  {
    DispatchPreserves(Handlers(b, topic), payload, s, invoke, (x: S) => busOf(x) == b);
  }
}
