/** The named-topic publish/subscribe bus of pubsub.py: an `Exchange` is a
    set of subscribers; the process-wide registry maps names to exchanges and
    creates an empty one on first use. */
module PubSub {
  import opened Wrappers
  import opened Delivery

  /** Topic names the core publishes on. */
  const BoundsUpdatedTopic: string := "SD_bounds_updated"
  const ReflowStartTopic: string := "SD_reflow_start"
  const ReflowDoneTopic: string := "SD_reflow_done"
  const InteractionCompleteTopic: string := "MPL_interaction_complete"
  const LassoDrawnTopic: string := "B4D_panel_lasso_drawn"

  /** `set.remove` of a task that is not subscribed: KeyError. */
  datatype PubSubError = NotSubscribed

  datatype Exchange<S> = Exchange(subscribers: set<S>)

  function Attach<S>(e: Exchange<S>, task: S): (r: Exchange<S>)
    ensures r.subscribers == e.subscribers + {task}
  {
    Exchange(e.subscribers + {task})
  }

  function Detach<S>(e: Exchange<S>, task: S): (r: Result<Exchange<S>, PubSubError>)
    ensures r.Success? <==> task in e.subscribers
    ensures r.Success? ==> r.value.subscribers == e.subscribers - {task}
  {
    if task in e.subscribers then Success(Exchange(e.subscribers - {task})) else Failure(NotSubscribed)
  }

  /** Attaching twice is attaching once, and detaching undoes an attach of a
      task that was not yet subscribed. */
  lemma AttachDetachInverse<S>(e: Exchange<S>, task: S)
    ensures Attach(Attach(e, task), task) == Attach(e, task)
    ensures task !in e.subscribers ==> Detach(Attach(e, task), task) == Success(e)
    ensures task !in e.subscribers ==> Detach(e, task) == Failure(NotSubscribed)
  {
  }

  /** `exchange.send(msg)`: one call per current subscriber; `order` is the
      iteration order of the subscriber set, which Python leaves unspecified. */
  function Publish<S(!new), M>(e: Exchange<S>, order: seq<S>, msg: M): (r: seq<Sent<S, M>>)
    requires Enumerates(order, e.subscribers)
    ensures forall s :: ReceivedBy(r, s) == (if s in e.subscribers then [msg] else [])
    ensures e.subscribers == {} ==> r == []
  {
    var r := FanOut(order, msg);
    assert forall s :: ReceivedBy(r, s) == (if s in e.subscribers then [msg] else []) by {
      forall s ensures ReceivedBy(r, s) == (if s in e.subscribers then [msg] else []) {
        EnumerationFanOut(order, e.subscribers, msg, s);
      }
    }
    assert |order| > 0 ==> e.subscribers != {} by {
      if |order| > 0 {
        assert order[0] in e.subscribers;
      }
    }
    r
  }

  // ----------------------------------------------- the `subscribe` context

  /** Entry of `with exchange.subscribe(*tasks)`. */
  function AttachAll<S>(e: Exchange<S>, tasks: seq<S>): (r: Exchange<S>)
    ensures r.subscribers == e.subscribers + set t | t in tasks
    decreases |tasks|
  {
    if |tasks| == 0 then e else AttachAll(Attach(e, tasks[0]), tasks[1..])
  }

  /** The `finally` clause: detach each task in order; the first task that is
      no longer subscribed raises and leaves the later tasks attached. */
  function DetachAll<S>(e: Exchange<S>, tasks: seq<S>): (r: (Exchange<S>, Option<PubSubError>))
    ensures r.1.None? ==> r.0.subscribers == e.subscribers - set t | t in tasks
    ensures (NoDup(tasks) && forall t :: t in tasks ==> t in e.subscribers) ==> r.1.None?
    ensures (exists t :: t in tasks && t !in e.subscribers) ==> r.1.Some?
    ensures r.0.subscribers <= e.subscribers
    decreases |tasks|
  {
    if |tasks| == 0 then (e, None)
    else
      match Detach(e, tasks[0])
      case Failure(err) => (e, Some(err))
      case Success(e') =>
        assert NoDup(tasks) ==> NoDup(tasks[1..]) && tasks[0] !in tasks[1..] by {
          if NoDup(tasks) {
            forall i, j | 0 <= i < j < |tasks[1..]| ensures tasks[1..][i] != tasks[1..][j] {
              assert tasks[1..][i] == tasks[i + 1] && tasks[1..][j] == tasks[j + 1];
            }
            forall k | 0 <= k < |tasks[1..]| ensures tasks[1..][k] != tasks[0] {
              assert tasks[1..][k] == tasks[k + 1];
            }
          }
        }
        assert (exists t :: t in tasks && t !in e.subscribers) ==>
          exists t :: t in tasks[1..] && t !in e'.subscribers by {
          if exists t :: t in tasks && t !in e.subscribers {
            var t :| t in tasks && t !in e.subscribers;
            assert t != tasks[0] && t in tasks[1..];
          }
        }
        DetachAll(e', tasks[1..])
  }

  /** Why a `with exchange.subscribe(...)` block ended abnormally. */
  datatype ScopeError = BodyRaised | ExitRaised(err: PubSubError)

  datatype ScopeExit<S> = ScopeExit(exchange: Exchange<S>, error: Option<ScopeError>)

  /** A whole `with` block: `body` is the block's effect on the subscriber
      set (sending does not change it) and `raises` whether it raised. An
      exception from the `finally` clause replaces the body's. */
  function Subscribe<S>(e: Exchange<S>, tasks: seq<S>, body: Exchange<S> -> Exchange<S>, raises: bool): ScopeExit<S> {
    var exit := DetachAll(body(AttachAll(e, tasks)), tasks);
    ScopeExit(exit.0,
      if exit.1.Some? then Some(ExitRaised(exit.1.value))
      else if raises then Some(BodyRaised) else None)
  }

  /** Every task is subscribed inside the block, and every task is detached on
      exit whether or not the body raised. */
  lemma SubscribeDetachesOnEveryExit<S>(e: Exchange<S>, tasks: seq<S>, body: Exchange<S> -> Exchange<S>)
    requires NoDup(tasks)
    requires body(AttachAll(e, tasks)) == AttachAll(e, tasks)
    ensures forall t :: t in tasks ==> t in AttachAll(e, tasks).subscribers
    ensures Subscribe(e, tasks, body, false) == ScopeExit(Exchange(e.subscribers - set t | t in tasks), None)
    ensures Subscribe(e, tasks, body, true) == ScopeExit(Exchange(e.subscribers - set t | t in tasks), Some(BodyRaised))
  {
  }

  /** A task listed twice is detached once and then raises on exit. */
  lemma DuplicateTaskRaisesOnExit<S>(e: Exchange<S>, task: S, raises: bool)
    ensures Subscribe(e, [task, task], x => x, raises).error == Some(ExitRaised(NotSubscribed))
  {
    var inside := AttachAll(e, [task, task]);
    assert task in inside.subscribers;
    var once := Detach(inside, task).value;
    assert DetachAll(inside, [task, task]) == DetachAll(once, [task]);
    assert [task, task][1..] == [task];
  }

  // ------------------------------------------------------------- registry

  /** `_exchanges`, a defaultdict of exchanges keyed by name. */
  type Registry<S> = map<string, Exchange<S>>

  /** The exchange a name currently denotes (an empty one if never used). */
  function Lookup<S>(reg: Registry<S>, name: string): Exchange<S> {
    if name in reg then reg[name] else Exchange({})
  }

  /** `get_exchange(name)`: the registered exchange, created empty on first use. */
  function GetExchange<S>(reg: Registry<S>, name: string): (r: (Registry<S>, Exchange<S>))
    ensures name in r.0 && r.0[name] == r.1
    ensures name !in reg ==> r.1.subscribers == {}
    ensures forall n :: n != name ==> Lookup(r.0, n) == Lookup(reg, n)
  {
    var e := Lookup(reg, name);
    (reg[name := e], e)
  }

  /** The same name always denotes the same exchange: a second `get_exchange`
      returns what the first did and creates nothing. */
  lemma GetExchangeStable<S>(reg: Registry<S>, name: string)
    ensures GetExchange(GetExchange(reg, name).0, name) == GetExchange(reg, name)
    ensures Lookup(GetExchange(reg, name).0, name) == Lookup(reg, name)
  {
    var (reg', e) := GetExchange(reg, name);
    assert reg'[name := e] == reg';
  }

  /** `get_exchange(name).attach(task)` */
  function AttachTo<S>(reg: Registry<S>, name: string, task: S): (r: Registry<S>)
    ensures Lookup(r, name).subscribers == Lookup(reg, name).subscribers + {task}
    ensures forall n :: n != name ==> Lookup(r, n) == Lookup(reg, n)
  {
    var (reg', e) := GetExchange(reg, name);
    reg'[name := Attach(e, task)]
  }

  /** `get_exchange(name).detach(task)` */
  function DetachFrom<S>(reg: Registry<S>, name: string, task: S): (r: Result<Registry<S>, PubSubError>)
    ensures r.Success? <==> task in Lookup(reg, name).subscribers
    ensures r.Success? ==> Lookup(r.value, name).subscribers == Lookup(reg, name).subscribers - {task}
    ensures r.Success? ==> forall n :: n != name ==> Lookup(r.value, n) == Lookup(reg, n)
  {
    var (reg', e) := GetExchange(reg, name);
    match Detach(e, task)
    case Failure(err) => Failure(err)
    case Success(e') => Success(reg'[name := e'])
  }

  /** Two publications in a row reach each subscriber in publication order. */
  lemma PublishTwice<S(!new), M>(e: Exchange<S>, o1: seq<S>, o2: seq<S>, msg1: M, msg2: M, t: S)
    requires Enumerates(o1, e.subscribers) && Enumerates(o2, e.subscribers)
    requires t in e.subscribers
    ensures ReceivedBy(Publish(e, o1, msg1) + Publish(e, o2, msg2), t) == [msg1, msg2]
  {
    CountAppend(Publish(e, o1, msg1), Publish(e, o2, msg2), t);
  }

  /** The demonstration at the end of pubsub.py, inside the `with` block:
      both tasks are subscribed and each receives msg1 then msg2. */
  lemma SubscribeDemo<S(!new), M>(reg: Registry<S>, a: S, b: S, o1: seq<S>, o2: seq<S>, msg1: M, msg2: M)
    requires a != b
    requires Lookup(reg, "spam").subscribers == {}
    requires Enumerates(o1, {a, b}) && Enumerates(o2, {a, b})
    ensures var inside := AttachAll(GetExchange(reg, "spam").1, [a, b]);
      && inside.subscribers == {a, b}
      && ReceivedBy(Publish(inside, o1, msg1) + Publish(inside, o2, msg2), a) == [msg1, msg2]
      && ReceivedBy(Publish(inside, o1, msg1) + Publish(inside, o2, msg2), b) == [msg1, msg2]
  {
    var e := GetExchange(reg, "spam").1;
    assert (set t | t in [a, b]) == {a, b};
    var inside := AttachAll(e, [a, b]);
    assert inside.subscribers == {a, b};
    PublishTwice(inside, o1, o2, msg1, msg2, a);
    PublishTwice(inside, o1, o2, msg1, msg2, b);
  }

  /** The same demonstration after the block: both tasks are detached
      without error, so msg3 reaches no one. */
  lemma SubscribeDemoExit<S(!new), M>(reg: Registry<S>, a: S, b: S, msg3: M)
    requires a != b
    requires Lookup(reg, "spam").subscribers == {}
    ensures var after := Subscribe(GetExchange(reg, "spam").1, [a, b], x => x, false);
      && after.error.None?
      && after.exchange.subscribers == {}
      && Publish(after.exchange, [], msg3) == []
  {
    assert NoDup([a, b]);
    SubscribeDetachesOnEveryExit(GetExchange(reg, "spam").1, [a, b], x => x);
  }
}
