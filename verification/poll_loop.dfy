/** The background poll loop of one subscription. Each cycle reads the
    sentinel key; when that read succeeds it reads the watched keys and,
    when that succeeds too, hands one update event to the handler. Whatever
    the handler does is swallowed. After each cycle the loop waits for its
    stop signal, the cancellation of its context, or the poll interval;
    only the first two end it. Timing and concurrency are abstracted into a
    sequence of ticks, one per cycle, saying what the environment does. */
module PollLoop {
  import opened Wrappers
  import opened Fetcher
  import opened Subscriptions

  datatype UpdateEvent = UpdateEvent(id: string, items: map<string, Item>)

  /** How a handler call ends: normally, with an error, or with a panic. */
  datatype HandlerOutcome = Handled | HandlerError | HandlerPanic

  /** Which of the three waits fires first after a cycle. */
  datatype Wake = StopSignal | ContextDone | IntervalElapsed

  /** The environment of one cycle: the store as it is read during the cycle,
      how the handler behaves if called, and how the following wait ends. */
  datatype Tick = Tick(store: Backend, handler: HandlerOutcome, wake: Wake)

  /** One handler call and how it ended (the outcome is only ever logged). */
  datatype Delivery = Delivery(event: UpdateEvent, outcome: HandlerOutcome)

  /** What a run of the loop did: the handler calls in order, how many cycles
      ran, and whether the loop has returned. */
  datatype Trace = Trace(deliveries: seq<Delivery>, cycles: nat, exited: bool)

  /** One poll cycle against the store: the sentinel's value is read and thrown
      away, so every cycle whose two reads succeed yields an event. */
  function PollCycle(b: Backend, sub: Subscription): (r: Option<UpdateEvent>)
    ensures r.Some? ==> r.value.id == sub.id
  {
    match Get(b, [sub.sentinelKey], sub.metadata)
    case Failure(_) => None
    case Success(_) =>
      match Get(b, sub.keys, sub.metadata)
      case Failure(_) => None
      case Success(items) => Some(UpdateEvent(sub.id, items))
  }

  /** A cycle in terms of the store's answers: it yields an event exactly when
      the sentinel read succeeds and then every watched key's read succeeds,
      and the event carries the item of every watched key. */
  lemma PollCycleReads(b: Backend, sub: Subscription)
    ensures PollCycle(b, sub).Some? ==> b.getSetting(sub.sentinelKey, LabelFromMetadata(sub.metadata)).Success?
    ensures |sub.keys| > 0 ==>
              (PollCycle(b, sub).Some? <==>
                 && b.getSetting(sub.sentinelKey, LabelFromMetadata(sub.metadata)).Success?
                 && forall i :: 0 <= i < |sub.keys| ==> b.getSetting(sub.keys[i], LabelFromMetadata(sub.metadata)).Success?)
    ensures |sub.keys| > 0 && PollCycle(b, sub).Some? ==>
              ReadsAll(b, sub.keys, LabelFromMetadata(sub.metadata), PollCycle(b, sub).value.items)
    ensures |sub.keys| == 0 && PollCycle(b, sub).Some? ==>
              IsListing(Listed(b.listSettings(ListSelector(sub.metadata))), PollCycle(b, sub).value.items)
  {
    var sentinel := Get(b, [sub.sentinelKey], sub.metadata);
    assert sentinel.Success? <==> b.getSetting(sub.sentinelKey, LabelFromMetadata(sub.metadata)).Success? by {
      assert [sub.sentinelKey][0] == sub.sentinelKey;
    }
  }

  /** A subscription's cycle as a function of the store it reads. */
  function Poller(sub: Subscription): (poll: Backend -> Option<UpdateEvent>)
    ensures forall b :: poll(b) == PollCycle(b, sub)
  {
    b => PollCycle(b, sub)
  }

  /** The handler calls a cycle makes: one when the cycle yields an event, none otherwise. */
  function CycleDeliveries(poll: Backend -> Option<UpdateEvent>, t: Tick): (ds: seq<Delivery>)
    ensures |ds| <= 1
    ensures |ds| == 1 <==> poll(t.store).Some?
    ensures |ds| == 1 ==> ds[0].event == poll(t.store).value && ds[0].outcome == t.handler
  {
    match poll(t.store)
    case Some(e) => [Delivery(e, t.handler)]
    case None => []
  }

  /** The handler calls of the given cycles, were all of them to run. */
  function Delivered(poll: Backend -> Option<UpdateEvent>, ticks: seq<Tick>): (ds: seq<Delivery>)
    ensures |ds| <= |ticks|
  {
    if |ticks| == 0 then []
    else Delivered(poll, ticks[..|ticks| - 1]) + CycleDeliveries(poll, ticks[|ticks| - 1])
  }

  /** Every event a subscription's cycles deliver carries the subscription's id. */
  lemma {:induction false} DeliveredIds(sub: Subscription, ticks: seq<Tick>)
    ensures forall i :: 0 <= i < |Delivered(Poller(sub), ticks)| ==> Delivered(Poller(sub), ticks)[i].event.id == sub.id
    decreases |ticks|
  {
    if |ticks| > 0 {
      DeliveredIds(sub, ticks[..|ticks| - 1]);
      var t := ticks[|ticks| - 1];
      assert Poller(sub)(t.store) == PollCycle(t.store, sub);
    }
  }

  /** The handler calls of two stretches of cycles are those of the first, then those of the second. */
  lemma {:induction false} DeliveredAppend(poll: Backend -> Option<UpdateEvent>, a: seq<Tick>, b: seq<Tick>)
    ensures Delivered(poll, a + b) == Delivered(poll, a) + Delivered(poll, b)
    decreases |b|
  {
    if |b| == 0 {
      assert a + b == a;
    } else {
      var front := b[..|b| - 1];
      DeliveredAppend(poll, a, front);
      assert (a + b)[..|a + b| - 1] == a + front;
      assert (a + b)[|a + b| - 1] == b[|b| - 1];
    }
  }

  /** The first cycle's handler calls come before those of the next `n` cycles. */
  lemma DeliveredFirst(poll: Backend -> Option<UpdateEvent>, ticks: seq<Tick>, n: nat)
    requires n < |ticks|
    ensures Delivered(poll, ticks[..1 + n]) == CycleDeliveries(poll, ticks[0]) + Delivered(poll, ticks[1..][..n])
  {
    assert ticks[..1 + n] == [ticks[0]] + ticks[1..][..n];
    DeliveredAppend(poll, [ticks[0]], ticks[1..][..n]);
    assert [ticks[0]][..0] == [];
  }

  /** A wait that ends the loop. */
  predicate EndsLoop(t: Tick) {
    t.wake != IntervalElapsed
  }

  /** Some wait among `ticks` ends the loop. */
  ghost predicate SomeWaitEnds(ticks: seq<Tick>) {
    exists i :: 0 <= i < |ticks| && EndsLoop(ticks[i])
  }

  /** When the first wait is the poll interval, a later wait must end the loop. */
  lemma SomeWaitEndsLater(ticks: seq<Tick>)
    requires |ticks| > 0 && !EndsLoop(ticks[0])
    ensures SomeWaitEnds(ticks) <==> SomeWaitEnds(ticks[1..])
  {
    if SomeWaitEnds(ticks) {
      var i :| 0 <= i < |ticks| && EndsLoop(ticks[i]);
      assert EndsLoop(ticks[1..][i - 1]);
    }
    if SomeWaitEnds(ticks[1..]) {
      var i :| 0 <= i < |ticks[1..]| && EndsLoop(ticks[1..][i]);
      assert EndsLoop(ticks[i + 1]);
    }
  }

  /** Runs the loop over the ticks the environment supplies: a cycle, then a
      wait, until a wait ends with the stop signal or the context's
      cancellation, or the ticks run out while the loop is still polling.
      `poll` is the cycle; for a subscription it is `Poller(sub)`. */
  function Run(poll: Backend -> Option<UpdateEvent>, ticks: seq<Tick>): (t: Trace)
    ensures t.cycles <= |ticks|
    ensures t.exited <==> SomeWaitEnds(ticks)
    ensures t.exited ==> t.cycles > 0 && ticks[t.cycles - 1].wake != IntervalElapsed
    ensures !t.exited ==> t.cycles == |ticks|
    ensures forall i :: 0 <= i < t.cycles - 1 ==> ticks[i].wake == IntervalElapsed
    ensures t.deliveries == Delivered(poll, ticks[..t.cycles])
    decreases |ticks|
  {
    if |ticks| == 0 then Trace([], 0, false)
    else
      var now := CycleDeliveries(poll, ticks[0]);
      if ticks[0].wake != IntervalElapsed then
        DeliveredFirst(poll, ticks, 0);
        assert EndsLoop(ticks[0]);
        Trace(now, 1, true)
      else
        var rest := Run(poll, ticks[1..]);
        SomeWaitEndsLater(ticks);
        DeliveredFirst(poll, ticks, rest.cycles);
        assert rest.exited ==> ticks[rest.cycles] == ticks[1..][rest.cycles - 1];
        assert forall i :: 1 <= i < |ticks| ==> ticks[1..][i - 1] == ticks[i];
        Trace(now + rest.deliveries, 1 + rest.cycles, rest.exited)
  }

  // ----- properties of the loop -----

  /** Dropping the first tick of `a + b` drops the first tick of `a`. */
  lemma TailOfAppend(a: seq<Tick>, b: seq<Tick>)
    requires |a| > 0
    ensures (a + b)[1..] == a[1..] + b
  {
  }

  /** Once a wait has ended the loop, nothing the environment does afterwards
      starts another cycle or another handler call. */
  lemma {:induction false} NoCycleAfterExit(poll: Backend -> Option<UpdateEvent>, ticks: seq<Tick>, later: seq<Tick>)
    requires SomeWaitEnds(ticks)
    ensures Run(poll, ticks + later) == Run(poll, ticks)
    decreases |ticks|
  {
    var all := ticks + later;
    assert all[0] == ticks[0];
    if ticks[0].wake == IntervalElapsed {
      SomeWaitEndsLater(ticks);
      NoCycleAfterExit(poll, ticks[1..], later);
      TailOfAppend(ticks, later);
      var rest := Run(poll, ticks[1..]);
      assert Run(poll, all) == Trace(CycleDeliveries(poll, ticks[0]) + rest.deliveries, 1 + rest.cycles, rest.exited);
    }
  }

  /** Cycles run against stores that agree, one for one, call the handler
      with the same events. */
  lemma {:induction false} DeliveredEventsAgree(poll: Backend -> Option<UpdateEvent>, ticks: seq<Tick>, other: seq<Tick>)
    requires |ticks| == |other|
    requires forall i :: 0 <= i < |ticks| ==> ticks[i].store == other[i].store
    ensures |Delivered(poll, ticks)| == |Delivered(poll, other)|
    ensures forall i :: 0 <= i < |Delivered(poll, ticks)| ==> Delivered(poll, ticks)[i].event == Delivered(poll, other)[i].event
    decreases |ticks|
  {
    if |ticks| > 0 {
      var n := |ticks| - 1;
      assert forall i :: 0 <= i < n ==> ticks[..n][i] == ticks[i] && other[..n][i] == other[i];
      DeliveredEventsAgree(poll, ticks[..n], other[..n]);
      var d1, d2 := Delivered(poll, ticks[..n]), Delivered(poll, other[..n]);
      var c1, c2 := CycleDeliveries(poll, ticks[n]), CycleDeliveries(poll, other[n]);
      assert ticks[n].store == other[n].store;
      assert |c1| == |c2| && (|c1| == 1 ==> c1[0].event == c2[0].event);
      assert Delivered(poll, ticks) == d1 + c1;
      assert Delivered(poll, other) == d2 + c2;
    }
  }

  /** How many cycles run, and whether the loop returns, depends on the waits
      alone, whatever the cycles do. */
  lemma RunLengthFromWaits(poll: Backend -> Option<UpdateEvent>, ticks: seq<Tick>,
                           poll2: Backend -> Option<UpdateEvent>, other: seq<Tick>)
    requires |ticks| == |other|
    requires forall i :: 0 <= i < |ticks| ==> ticks[i].wake == other[i].wake
    ensures Run(poll, ticks).cycles == Run(poll2, other).cycles
    ensures Run(poll, ticks).exited == Run(poll2, other).exited
  {
    var t1 := Run(poll, ticks);
    var t2 := Run(poll2, other);
    assert forall i :: 0 <= i < |ticks| ==> (EndsLoop(ticks[i]) <==> EndsLoop(other[i]));
    if SomeWaitEnds(ticks) {
      var i :| 0 <= i < |ticks| && EndsLoop(ticks[i]);
      assert EndsLoop(other[i]);
    }
    if SomeWaitEnds(other) {
      var i :| 0 <= i < |other| && EndsLoop(other[i]);
      assert EndsLoop(ticks[i]);
    }
  }

  /** A handler's error or panic never changes which cycles run or which
      events are delivered: runs that differ only in handler behaviour agree. */
  lemma HandlerOutcomeIgnored(poll: Backend -> Option<UpdateEvent>, ticks: seq<Tick>, other: seq<Tick>)
    requires |ticks| == |other|
    requires forall i :: 0 <= i < |ticks| ==> ticks[i].store == other[i].store && ticks[i].wake == other[i].wake
    ensures Run(poll, ticks).cycles == Run(poll, other).cycles
    ensures Run(poll, ticks).exited == Run(poll, other).exited
    ensures |Run(poll, ticks).deliveries| == |Run(poll, other).deliveries|
    ensures forall i :: 0 <= i < |Run(poll, ticks).deliveries| ==>
              Run(poll, ticks).deliveries[i].event == Run(poll, other).deliveries[i].event
  {
    RunLengthFromWaits(poll, ticks, poll, other);
    var t1 := Run(poll, ticks);
    var t2 := Run(poll, other);
    var n := t1.cycles;
    var a := ticks[..n];
    var b := other[..n];
    assert t1.deliveries == Delivered(poll, a);
    assert t2.deliveries == Delivered(poll, b);
    assert forall i :: 0 <= i < n ==> a[i].store == b[i].store;
    DeliveredEventsAgree(poll, a, b);
  }

  /** Every cycle whose reads succeed delivers, whether or not anything
      changed: with a store that stays the same, every cycle run delivers the
      same event again. */
  lemma {:induction false} UnchangedStoreRedelivers(poll: Backend -> Option<UpdateEvent>, b: Backend, ticks: seq<Tick>)
    requires poll(b).Some?
    requires forall i :: 0 <= i < |ticks| ==> ticks[i].store == b
    ensures |Run(poll, ticks).deliveries| == Run(poll, ticks).cycles
    ensures forall i :: 0 <= i < |Run(poll, ticks).deliveries| ==>
              Run(poll, ticks).deliveries[i].event == poll(b).value
    decreases |ticks|
  {
    if |ticks| > 0 && ticks[0].wake == IntervalElapsed {
      assert forall i :: 0 <= i < |ticks| - 1 ==> ticks[1..][i] == ticks[i + 1];
      UnchangedStoreRedelivers(poll, b, ticks[1..]);
    }
  }

  /** Point reads of keys on which two stores agree give the same result. */
  lemma {:induction false} ReadKeysAgree(b1: Backend, b2: Backend, keys: seq<string>, labelFilter: Option<string>)
    requires forall i :: 0 <= i < |keys| ==> b1.getSetting(keys[i], labelFilter) == b2.getSetting(keys[i], labelFilter)
    ensures ReadKeys(b1, keys, labelFilter) == ReadKeys(b2, keys, labelFilter)
    decreases |keys|
  {
    if |keys| > 0 {
      var front := keys[..|keys| - 1];
      assert forall i :: 0 <= i < |front| ==> front[i] == keys[i];
      ReadKeysAgree(b1, b2, front, labelFilter);
    }
  }

  /** The sentinel's value is never compared: two stores that agree on the
      watched keys and both answer the sentinel read yield the same cycle,
      whatever sentinel values they hold. */
  lemma SentinelValueIgnored(b1: Backend, b2: Backend, sub: Subscription)
    requires |sub.keys| > 0
    requires b1.getSetting(sub.sentinelKey, LabelFromMetadata(sub.metadata)).Success?
    requires b2.getSetting(sub.sentinelKey, LabelFromMetadata(sub.metadata)).Success?
    requires forall i :: 0 <= i < |sub.keys| ==>
               b1.getSetting(sub.keys[i], LabelFromMetadata(sub.metadata))
               == b2.getSetting(sub.keys[i], LabelFromMetadata(sub.metadata))
    ensures PollCycle(b1, sub) == PollCycle(b2, sub)
  {
    ReadKeysAgree(b1, b2, sub.keys, LabelFromMetadata(sub.metadata));
  }

  /** The store of the example below: a sentinel and two unlabelled keys. */
  function ExampleStore(): Backend {
    Backend(
      (k: string, l: Option<string>) =>
        if k == "sentinel1" then Success(Setting("v1", None))
        else if k == "a" then Success(Setting("1", None))
        else if k == "b" then Success(Setting("2", None))
        else Failure(NotFound),
      (s: Selector) => [])
  }

  /** Subscribing to "a" and "b" with sentinel "sentinel1" on an empty registry reserves both keys. */
  lemma ExampleSubscribe()
    ensures var out := Subscribe(EmptyRegistry, "sub-1", ["a", "b"], map[SentinelKeyName := "sentinel1"]);
            && out.result.Success?
            && out.result.value == Subscription("sub-1", ["a", "b"], "sentinel1", map[SentinelKeyName := "sentinel1"])
  {
    var md := map[SentinelKeyName := "sentinel1"];
    assert SentinelKey(md) == "sentinel1";
    ReserveUnowned(map[], "sub-1", ["a", "b"]);
  }

  /** Against `ExampleStore`, a first cycle followed by the stop signal
      delivers exactly a = "1" and b = "2", whatever comes later. */
  lemma ExamplePoll(later: seq<Tick>)
    ensures var sub := Subscription("sub-1", ["a", "b"], "sentinel1", map[SentinelKeyName := "sentinel1"]);
            Run(Poller(sub), [Tick(ExampleStore(), Handled, StopSignal)] + later).deliveries
               == [Delivery(UpdateEvent("sub-1", map["a" := Item("1", map[]), "b" := Item("2", map[])]), Handled)]
  {
    var md := map[SentinelKeyName := "sentinel1"];
    var sub := Subscription("sub-1", ["a", "b"], "sentinel1", md);
    var store := ExampleStore();
    var first := [Tick(store, Handled, StopSignal)];
    assert SomeWaitEnds(first) by {
      assert EndsLoop(first[0]);
    }
    NoCycleAfterExit(Poller(sub), first, later);
    PollCycleReads(store, sub);
    assert LabelFromMetadata(md) == None;
    var ev := PollCycle(store, sub);
    assert ev.Some?;
    var items := ev.value.items;
    assert items.Keys == {"a", "b"};
    assert items == map["a" := Item("1", map[]), "b" := Item("2", map[])];
    assert Run(Poller(sub), first).deliveries == [Delivery(ev.value, Handled)];
  }

  /** The two halves together: subscribe, one delivery, stop, then silence. */
  lemma ExampleSubscribePollStop(later: seq<Tick>)
    ensures var out := Subscribe(EmptyRegistry, "sub-1", ["a", "b"], map[SentinelKeyName := "sentinel1"]);
            && out.result.Success?
            && Run(Poller(out.result.value), [Tick(ExampleStore(), Handled, StopSignal)] + later).deliveries
               == [Delivery(UpdateEvent("sub-1", map["a" := Item("1", map[]), "b" := Item("2", map[])]), Handled)]
  {
    ExampleSubscribe();
    ExamplePoll(later);
  }
}
