/** Subscription bookkeeping: the set of subscription ids holding a stop
    signal, which subscription owns each key, and which keys each
    subscription owns. `Subscribe` and `Unsubscribe` are pure transitions
    over that state; the fresh id a subscription gets is a parameter. */
module Subscriptions {
  import opened Wrappers

  const SentinelKeyName := "sentinelKey"

  datatype Registry = Registry(
    stops: set<string>,
    keysToSubID: map<string, string>,
    subIDToKeys: map<string, seq<string>>)

  const EmptyRegistry := Registry({}, map[], map[])

  /** A running subscription: its id, the keys it watches, its sentinel key
      and the request metadata its reads are made with. */
  datatype Subscription = Subscription(
    id: string,
    keys: seq<string>,
    sentinelKey: string,
    metadata: map<string, string>)

  datatype SubscribeError = MissingSentinel | AllKeysSubscribed

  datatype SubscribeOutcome = SubscribeOutcome(registry: Registry, result: Result<Subscription, SubscribeError>)

  predicate NoDuplicates(s: seq<string>) {
    forall i, j :: 0 <= i < j < |s| ==> s[i] != s[j]
  }

  /** The position of the first occurrence of `x` in `s`. */
  function FirstIndex(s: seq<string>, x: string): (i: nat)
    requires x in s
    ensures i < |s| && s[i] == x
    ensures forall j :: 0 <= j < i ==> s[j] != x
  {
    if s[0] == x then 0 else 1 + FirstIndex(s[1..], x)
  }

  /** The keys of `sub` appear in the order of their first request in `keys`. */
  predicate InRequestOrder(sub: seq<string>, keys: seq<string>)
    requires forall k :: k in sub ==> k in keys
  {
    forall i, j :: 0 <= i < j < |sub| ==> FirstIndex(keys, sub[i]) < FirstIndex(keys, sub[j])
  }

  /** The two ownership maps agree, every subscription's key list is non-empty
      and duplicate-free, and only a subscription with a stop signal owns keys. */
  ghost predicate Valid(reg: Registry) {
    && reg.subIDToKeys.Keys <= reg.stops
    && (forall k :: k in reg.keysToSubID ==>
          reg.keysToSubID[k] in reg.subIDToKeys && k in reg.subIDToKeys[reg.keysToSubID[k]])
    && (forall s, k :: s in reg.subIDToKeys && k in reg.subIDToKeys[s] ==>
          k in reg.keysToSubID && reg.keysToSubID[k] == s)
    && (forall s :: s in reg.subIDToKeys ==> |reg.subIDToKeys[s]| > 0 && NoDuplicates(reg.subIDToKeys[s]))
  }

  /** The sentinel key a request names, or "" when it names none. */
  function SentinelKey(md: map<string, string>): (s: string)
    ensures s != "" <==> SentinelKeyName in md && md[SentinelKeyName] != ""
    ensures s != "" ==> s == md[SentinelKeyName]
  {
    if SentinelKeyName in md && md[SentinelKeyName] != "" then md[SentinelKeyName] else ""
  }

  datatype Reservation = Reservation(reserved: seq<string>, owners: map<string, string>)

  lemma {:induction false} FirstIndexOfPrefix(s: seq<string>, x: string, y: string)
    requires x in s
    ensures FirstIndex(s + [y], x) == FirstIndex(s, x)
    decreases |s|
  {
    if s[0] != x {
      assert (s + [y])[1..] == s[1..] + [y];
      FirstIndexOfPrefix(s[1..], x, y);
    }
  }

  /** The reserved keys are the requested keys nobody owned, once each. */
  ghost predicate ReservesFree(owners: map<string, string>, keys: seq<string>, reserved: seq<string>) {
    && NoDuplicates(reserved)
    && (forall k :: k in reserved <==> k in keys && k !in owners)
  }

  /** The reserved keys now belong to `id`, every earlier owner is kept, and
      every requested key has an owner. */
  ghost predicate OwnsReserved(owners: map<string, string>, id: string, keys: seq<string>, r: Reservation) {
    && r.owners.Keys == owners.Keys + KeySet(keys)
    && (forall k :: k in owners ==> k in r.owners && r.owners[k] == owners[k])
    && (forall k :: k in r.reserved ==> k in r.owners && r.owners[k] == id)
  }

  /** `r` is what reserving `keys` for `id` against `owners` must produce: the
      reserved keys are the requested keys nobody owned, once each and in
      request order; they now belong to `id` and every earlier owner is kept. */
  ghost predicate IsReservation(owners: map<string, string>, id: string, keys: seq<string>, r: Reservation) {
    && ReservesFree(owners, keys, r.reserved)
    && InRequestOrder(r.reserved, keys)
    && OwnsReserved(owners, id, keys, r)
  }

  /** The reservation that taking one more requested key leads to. */
  function NextReservation(r: Reservation, id: string, key: string): Reservation {
    if key in r.owners then r else Reservation(r.reserved + [key], r.owners[key := id])
  }

  /** Taking or skipping the next key keeps the reserved keys the free ones, once each. */
  lemma ReserveStepFree(owners: map<string, string>, id: string, front: seq<string>, key: string, r: Reservation)
    requires ReservesFree(owners, front, r.reserved) && OwnsReserved(owners, id, front, r)
    ensures ReservesFree(owners, front + [key], NextReservation(r, id, key).reserved)
  {
    var keys := front + [key];
    assert forall k :: k in keys <==> k in front || k == key;
    if key !in r.owners {
      var next := r.reserved + [key];
      assert forall i :: 0 <= i < |r.reserved| ==> next[i] == r.reserved[i];
    }
  }

  /** Requesting one more key leaves the order of the earlier ones alone. */
  lemma OrderExtend(sub: seq<string>, keys: seq<string>, key: string)
    requires forall k :: k in sub ==> k in keys
    requires InRequestOrder(sub, keys)
    ensures forall k :: k in sub ==> k in keys + [key]
    ensures InRequestOrder(sub, keys + [key])
  {
    forall k | k in sub
      ensures FirstIndex(keys + [key], k) == FirstIndex(keys, k)
    {
      FirstIndexOfPrefix(keys, k, key);
    }
  }

  /** A newly requested key taken last comes after every earlier one. */
  lemma OrderAppend(sub: seq<string>, keys: seq<string>, key: string)
    requires forall k :: k in sub ==> k in keys
    requires InRequestOrder(sub, keys) && key !in keys
    ensures forall k :: k in sub + [key] ==> k in keys + [key]
    ensures InRequestOrder(sub + [key], keys + [key])
  {
    OrderExtend(sub, keys, key);
    var next := sub + [key];
    assert FirstIndex(keys + [key], key) == |keys|;
    assert forall i :: 0 <= i < |sub| ==> next[i] == sub[i];
  }

  /** Taking or skipping the next key keeps the reserved keys in request order. */
  lemma ReserveStepOrder(owners: map<string, string>, id: string, front: seq<string>, key: string, r: Reservation)
    requires ReservesFree(owners, front, r.reserved) && InRequestOrder(r.reserved, front)
    requires OwnsReserved(owners, id, front, r)
    ensures forall k :: k in NextReservation(r, id, key).reserved ==> k in front + [key]
    ensures InRequestOrder(NextReservation(r, id, key).reserved, front + [key])
  {
    if key in r.owners {
      OrderExtend(r.reserved, front, key);
    } else {
      assert key !in KeySet(front);
      OrderAppend(r.reserved, front, key);
    }
  }

  /** Taking or skipping the next key gives it an owner and keeps every earlier one. */
  lemma ReserveStepOwners(owners: map<string, string>, id: string, front: seq<string>, key: string, r: Reservation)
    requires ReservesFree(owners, front, r.reserved) && OwnsReserved(owners, id, front, r)
    ensures OwnsReserved(owners, id, front + [key], NextReservation(r, id, key))
  {
    assert KeySet(front + [key]) == KeySet(front) + {key};
  }

  /** One step of the reservation walk: the next requested key is taken when nobody owns it yet. */
  lemma ReserveStep(owners: map<string, string>, id: string, keys: seq<string>, r: Reservation)
    requires |keys| > 0 && IsReservation(owners, id, keys[..|keys| - 1], r)
    ensures IsReservation(owners, id, keys, NextReservation(r, id, keys[|keys| - 1]))
  {
    var front := keys[..|keys| - 1];
    var key := keys[|keys| - 1];
    assert front + [key] == keys;
    ReserveStepFree(owners, id, front, key, r);
    ReserveStepOrder(owners, id, front, key, r);
    ReserveStepOwners(owners, id, front, key, r);
  }

  /** Walks the requested keys in order, giving `id` every key nobody owns yet
      (a key requested twice is taken once). */
  function Reserve(owners: map<string, string>, id: string, keys: seq<string>): (r: Reservation)
    ensures IsReservation(owners, id, keys, r)
  {
    if |keys| == 0 then Reservation([], owners)
    else
      var r := Reserve(owners, id, keys[..|keys| - 1]);
      ReserveStep(owners, id, keys, r);
      NextReservation(r, id, keys[|keys| - 1])
  }

  /** Nothing is reserved exactly when every requested key was already owned,
      and then the owners are unchanged. */
  lemma ReserveNothing(owners: map<string, string>, id: string, keys: seq<string>)
    ensures |Reserve(owners, id, keys).reserved| == 0 <==> forall k :: k in keys ==> k in owners
    ensures |Reserve(owners, id, keys).reserved| == 0 ==> Reserve(owners, id, keys).owners == owners
  {
    var r := Reserve(owners, id, keys);
    if |r.reserved| == 0 {
      assert r.owners.Keys == owners.Keys;
    } else {
      assert r.reserved[0] in r.reserved;
    }
  }

  /** `out` records a successful subscription of `keys` under `id`: it
      carries the request's sentinel and metadata, the keys it reserved (at
      least one) are recorded as its own, and every other list is kept. */
  ghost predicate Admitted(reg: Registry, id: string, keys: seq<string>, md: map<string, string>, out: SubscribeOutcome)
    requires out.result.Success?
  {
    var sub := out.result.value;
    && sub.id == id && sub.sentinelKey == SentinelKey(md) && sub.sentinelKey != "" && sub.metadata == md
    && |sub.keys| > 0
    && IsReservation(reg.keysToSubID, id, keys, Reservation(sub.keys, out.registry.keysToSubID))
    && out.registry.subIDToKeys.Keys == reg.subIDToKeys.Keys + {id}
    && (forall s :: s in reg.subIDToKeys && s != id ==> out.registry.subIDToKeys[s] == reg.subIDToKeys[s])
    && out.registry.subIDToKeys[id] == (if id in reg.subIDToKeys then reg.subIDToKeys[id] else []) + sub.keys
  }

  /** The outcome of a request whose reservation took at least one key. */
  function Admit(reg: Registry, id: string, r: Reservation, md: map<string, string>): SubscribeOutcome {
    var list := if id in reg.subIDToKeys then reg.subIDToKeys[id] + r.reserved else r.reserved;
    SubscribeOutcome(
      Registry(reg.stops + {id}, r.owners, reg.subIDToKeys[id := list]),
      Success(Subscription(id, r.reserved, SentinelKey(md), md)))
  }

  /** Admitting a reservation that took at least one key records a successful subscription. */
  lemma AdmitIsAdmitted(reg: Registry, id: string, keys: seq<string>, md: map<string, string>, r: Reservation)
    requires SentinelKey(md) != "" && |r.reserved| > 0
    requires IsReservation(reg.keysToSubID, id, keys, r)
    ensures Admitted(reg, id, keys, md, Admit(reg, id, r, md))
  {
    assert Reservation(r.reserved, r.owners) == r;
  }

  /** Registers a subscription under the fresh id `id`. The stop signal is
      stored before anything is checked, so it stays even when the request
      fails; on failure the ownership maps are unchanged. */
  function Subscribe(reg: Registry, id: string, keys: seq<string>, md: map<string, string>): (out: SubscribeOutcome)
    ensures out.registry.stops == reg.stops + {id}
    ensures out.result.Failure? ==>
              out.registry.keysToSubID == reg.keysToSubID && out.registry.subIDToKeys == reg.subIDToKeys
    ensures SentinelKey(md) == "" ==> out.result == Failure(MissingSentinel)
    ensures SentinelKey(md) != "" ==>
              (out.result == Failure(AllKeysSubscribed) <==> forall k :: k in keys ==> k in reg.keysToSubID)
    ensures out.result.Success? <==> SentinelKey(md) != "" && exists k :: k in keys && k !in reg.keysToSubID
    ensures out.result.Success? ==> Admitted(reg, id, keys, md, out)
  {
    if SentinelKey(md) == "" then
      SubscribeOutcome(Registry(reg.stops + {id}, reg.keysToSubID, reg.subIDToKeys), Failure(MissingSentinel))
    else
      var r := Reserve(reg.keysToSubID, id, keys);
      ReserveNothing(reg.keysToSubID, id, keys);
      if |r.reserved| == 0 then
        SubscribeOutcome(Registry(reg.stops + {id}, r.owners, reg.subIDToKeys), Failure(AllKeysSubscribed))
      else
        AdmitIsAdmitted(reg, id, keys, md, r);
        Admit(reg, id, r, md)
  }

  /** Stops subscription `id` and releases every key on its list. An id with
      no stop signal (unknown, failed or already stopped) changes nothing. */
  function Unsubscribe(reg: Registry, id: string): (r: Registry)
    ensures id !in reg.stops ==> r == reg
    ensures r.stops == reg.stops - {id}
    ensures id in reg.stops ==> r.subIDToKeys == reg.subIDToKeys - {id}
    ensures r.keysToSubID.Keys <= reg.keysToSubID.Keys
    ensures forall k :: k in r.keysToSubID ==> r.keysToSubID[k] == reg.keysToSubID[k]
    ensures forall k :: k in reg.keysToSubID ==>
              (k !in r.keysToSubID <==> id in reg.stops && id in reg.subIDToKeys && k in reg.subIDToKeys[id])
  {
    if id in reg.stops then
      var stops := reg.stops - {id};
      if id in reg.subIDToKeys then
        Registry(stops, reg.keysToSubID - KeySet(reg.subIDToKeys[id]), reg.subIDToKeys - {id})
      else
        Registry(stops, reg.keysToSubID, reg.subIDToKeys)
    else
      reg
  }

  // ----- properties of the transitions -----

  /** A consistent registry, an id not yet in use, and a reservation of
      `keys` for that id that took at least one key. */
  ghost predicate FreshAdmission(reg: Registry, id: string, keys: seq<string>, r: Reservation) {
    && Valid(reg) && id !in reg.stops
    && IsReservation(reg.keysToSubID, id, keys, r) && |r.reserved| > 0
  }

  /** After admission the new id's list is its reserved keys and every list is non-empty and duplicate-free. */
  lemma AdmitListsShape(reg: Registry, id: string, keys: seq<string>, md: map<string, string>, r: Reservation)
    requires FreshAdmission(reg, id, keys, r)
    ensures var r2 := Admit(reg, id, r, md).registry;
            && r2.subIDToKeys == reg.subIDToKeys[id := r.reserved]
            && r2.subIDToKeys.Keys <= r2.stops
            && forall s :: s in r2.subIDToKeys ==> |r2.subIDToKeys[s]| > 0 && NoDuplicates(r2.subIDToKeys[s])
  {
    assert id !in reg.subIDToKeys;
  }

  /** After admission every owned key is on its owner's list. */
  lemma AdmitOwnersListed(reg: Registry, id: string, keys: seq<string>, md: map<string, string>, r: Reservation)
    requires FreshAdmission(reg, id, keys, r)
    ensures var r2 := Admit(reg, id, r, md).registry;
            forall k :: k in r2.keysToSubID ==>
              r2.keysToSubID[k] in r2.subIDToKeys && k in r2.subIDToKeys[r2.keysToSubID[k]]
  {
    var r2 := Admit(reg, id, r, md).registry;
    AdmitListsShape(reg, id, keys, md, r);
    forall k | k in r2.keysToSubID
      ensures r2.keysToSubID[k] in r2.subIDToKeys && k in r2.subIDToKeys[r2.keysToSubID[k]]
    {
      if k in reg.keysToSubID {
        assert reg.keysToSubID[k] != id;
      } else {
        assert k in KeySet(keys);
        assert k in r.reserved;
      }
    }
  }

  /** After admission every listed key is owned by the subscription listing it. */
  lemma AdmitListsOwned(reg: Registry, id: string, keys: seq<string>, md: map<string, string>, r: Reservation)
    requires FreshAdmission(reg, id, keys, r)
    ensures var r2 := Admit(reg, id, r, md).registry;
            forall s, k :: s in r2.subIDToKeys && k in r2.subIDToKeys[s] ==>
              k in r2.keysToSubID && r2.keysToSubID[k] == s
  {
    var r2 := Admit(reg, id, r, md).registry;
    AdmitListsShape(reg, id, keys, md, r);
    assert r2.keysToSubID == r.owners;
    forall s, k | s in r2.subIDToKeys && k in r2.subIDToKeys[s]
      ensures k in r.owners && r.owners[k] == s
    {
      if s == id {
        assert k in r.reserved;
      } else {
        assert k in reg.subIDToKeys[s];
        assert k in reg.keysToSubID && reg.keysToSubID[k] == s;
      }
    }
  }

  /** Admitting a reservation under a fresh id keeps the registry consistent. */
  lemma AdmitPreservesValid(reg: Registry, id: string, keys: seq<string>, md: map<string, string>, r: Reservation)
    requires FreshAdmission(reg, id, keys, r)
    ensures var out := Admit(reg, id, r, md);
            Valid(out.registry) && out.registry.subIDToKeys[id] == out.result.value.keys
  {
    AdmitListsShape(reg, id, keys, md, r);
    AdmitOwnersListed(reg, id, keys, md, r);
    AdmitListsOwned(reg, id, keys, md, r);
  }

  /** A fresh id keeps the registry consistent, and a successful subscription's
      key list is exactly the keys it reserved. */
  lemma SubscribePreservesValid(reg: Registry, id: string, keys: seq<string>, md: map<string, string>)
    requires Valid(reg) && id !in reg.stops
    ensures Valid(Subscribe(reg, id, keys, md).registry)
    ensures var out := Subscribe(reg, id, keys, md);
            out.result.Success? ==> out.registry.subIDToKeys[id] == out.result.value.keys
  {
    var r := Reserve(reg.keysToSubID, id, keys);
    if SentinelKey(md) != "" && |r.reserved| > 0 {
      AdmitPreservesValid(reg, id, keys, md, r);
    }
  }

  /** With a consistent registry, unsubscribing releases exactly the keys the
      subscription owned and leaves every other subscription as it was. */
  lemma UnsubscribeReleasesOwnKeys(reg: Registry, id: string)
    requires Valid(reg)
    ensures var r := Unsubscribe(reg, id);
            && (forall k :: k in r.keysToSubID <==> k in reg.keysToSubID && reg.keysToSubID[k] != id)
            && (forall s :: s != id ==> (s in r.subIDToKeys <==> s in reg.subIDToKeys))
            && (forall s :: s in r.subIDToKeys ==> r.subIDToKeys[s] == reg.subIDToKeys[s])
  {
    var r := Unsubscribe(reg, id);
    if id in reg.stops && id in reg.subIDToKeys {
      forall k
        ensures k in r.keysToSubID <==> k in reg.keysToSubID && reg.keysToSubID[k] != id
      {
        if k in reg.keysToSubID && reg.keysToSubID[k] == id {
          assert k in reg.subIDToKeys[id];
        }
      }
    } else if id in reg.stops {
      forall k | k in reg.keysToSubID
        ensures reg.keysToSubID[k] != id
      {
      }
    } else {
      forall k | k in reg.keysToSubID
        ensures reg.keysToSubID[k] != id
      {
      }
    }
  }

  lemma UnsubscribePreservesValid(reg: Registry, id: string)
    requires Valid(reg)
    ensures Valid(Unsubscribe(reg, id))
  {
    UnsubscribeReleasesOwnKeys(reg, id);
  }

  /** Unsubscribing twice is the same as unsubscribing once. */
  lemma UnsubscribeIdempotent(reg: Registry, id: string)
    ensures Unsubscribe(Unsubscribe(reg, id), id) == Unsubscribe(reg, id)
  {
  }

  /** Keys nobody owns, requested once each, are all reserved, in request order. */
  lemma {:induction false} ReserveUnowned(owners: map<string, string>, id: string, keys: seq<string>)
    requires NoDuplicates(keys)
    requires forall k :: k in keys ==> k !in owners
    ensures Reserve(owners, id, keys).reserved == keys
    decreases |keys|
  {
    if |keys| > 0 {
      var front := keys[..|keys| - 1];
      var key := keys[|keys| - 1];
      assert front + [key] == keys;
      assert forall k :: k in front ==> k in keys;
      ReserveUnowned(owners, id, front);
      var r := Reserve(owners, id, front);
      assert key !in front;
      assert key !in r.owners;
      assert Reserve(owners, id, keys).reserved == r.reserved + [key];
    }
  }


  /** Released keys can be taken straight away by a new subscription. */
  lemma ReleasedKeysReservable(reg: Registry, id: string, newID: string, md: map<string, string>)
    requires Valid(reg) && id in reg.subIDToKeys
    requires newID !in reg.stops - {id}
    requires SentinelKey(md) != ""
    ensures var out := Subscribe(Unsubscribe(reg, id), newID, reg.subIDToKeys[id], md);
            out.result.Success? && out.result.value.keys == reg.subIDToKeys[id]
  {
    var released := reg.subIDToKeys[id];
    var r := Unsubscribe(reg, id);
    UnsubscribeReleasesOwnKeys(reg, id);
    forall k | k in released
      ensures k !in r.keysToSubID
    {
      assert reg.keysToSubID[k] == id;
    }
    ReserveUnowned(r.keysToSubID, newID, released);
  }

  /** Two subscriptions in a row with overlapping keys: every shared key that
      was free goes to the first, and the second reserves only keys that
      neither the earlier owners nor the first subscription hold. */
  lemma OverlappingSubscriptions(reg: Registry, id1: string, keys1: seq<string>, id2: string, keys2: seq<string>,
                                 md: map<string, string>)
    requires Valid(reg) && id1 != id2 && id1 !in reg.stops && id2 !in reg.stops
    requires SentinelKey(md) != ""
    ensures var first := Subscribe(reg, id1, keys1, md);
            var second := Subscribe(first.registry, id2, keys2, md);
            && Valid(second.registry)
            && (forall k :: k in keys1 && k !in reg.keysToSubID ==> second.registry.keysToSubID[k] == id1)
            && (second.result.Success? ==>
                 forall k :: k in second.result.value.keys <==> k in keys2 && k !in keys1 && k !in reg.keysToSubID)
  {
    var first := Subscribe(reg, id1, keys1, md);
    SubscribePreservesValid(reg, id1, keys1, md);
    SubscribePreservesValid(first.registry, id2, keys2, md);
  }
}
