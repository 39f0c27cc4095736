# Azure App Configuration store — a Dafny model

This project models the configuration-store component backed by Azure App
Configuration (`configuration/azure/appconfig/appconfig.go`). The component reads configuration items from a
remote key-value store and turns a pull-only store into a change feed: a
subscription polls a *sentinel* key and, whenever that read succeeds,
re-reads its watched keys and hands them to the subscriber's handler.

The model has six modules, one per concern of the Go file:

- `Wrappers` — `Option` (Go's nil pointer) and `Result` (Go's `(T, error)`).
- `Decimal` — `strconv.Atoi` on a 64-bit platform: an optional sign, one or
  more ASCII digits, and a value that fits a signed 64-bit integer. Its partner
  is `Itoa`, the canonical rendering, with the round trip proved.
- `AppConfigMetadata` — `parseMetadata`: exactly one of host and connection
  string, four optional integer options with defaults (3 retries, 120 s maximum
  retry delay, 4 s retry delay, 30 s poll interval), and durations kept as raw
  nanoseconds. Its partner is `Render`, which writes a configuration back out
  as properties; parsing a rendered configuration gives it back.
- `Fetcher` — `Get`, `getAll` and `getLabelFromMetadata`. The remote store
  is a value `Backend` with two pure functions: a point read
  `(key, label filter) -> Result<(value, label)>`, and a listing from a
  selector to the sequence of pages the pager yields.
- `Subscriptions` — `Subscribe`, `Unsubscribe` and
  `getSentinelKeyFromMetadata` as pure transitions on a `Registry`. The
  registry holds the ids with a stop signal, `keysToSubIDMap` and
  `subIDToKeyListMap`. The invariant `Valid` says the two maps mirror
  each other, each id's list is non-empty and duplicate-free, and only ids
  with a stop signal own keys.
- `PollLoop` — the body of `doSubscribe` and `handleSubscribedChange`. One
  cycle is a pure function of the store. The loop is a run over a sequence of
  ticks; each tick gives the store as read in that cycle, how the handler
  behaves, and which wait fires first (stop signal, context cancellation, or
  the poll interval). `Run` takes the cycle as a function of the store;
  a subscription's cycle is `Poller(sub)`, so the loop's properties hold for
  any cycle and are proved once.

Inputs the Go code takes from the outside world are parameters here. The
fresh subscription id (`uuid.New`) is an argument of `Subscribe`. The
remote store is a `Backend`. The timing and ordering of the poll loop's
wake-ups, and whether a handler call returns, fails or panics, are given as
ticks.

Behaviour the model copies from the code as written:

- `Subscribe` stores the new id's stop signal before checking the sentinel
  key. So a failed subscription (no sentinel, or every key taken) still leaves
  its id in the stop set, and the caller is never told that id.
- An empty key list and a fully taken key list give the same "all provided
  keys are already subscribed" error.
- The sentinel's value is discarded. Every cycle whose sentinel read and
  watched-key read both succeed delivers an event, whether or not anything
  changed.
- `Unsubscribe` deletes every key on the id's list from `keysToSubIDMap`,
  without checking who owns it. When `Valid` holds this is exactly the id's
  own keys.
- The registry maps are plain maps with no lock. Only sequential behaviour is
  modelled.

## Model

| member | source | states |
|---|---|---|
| Decimal.Atoi | configuration/azure/appconfig/appconfig.go:147-151 | parsing succeeds exactly when the text is an optional sign followed by at least one digit and its value fits 64 bits; the result is that value; bad syntax is a syntax error and an out-of-range value a range error |
| Decimal.AtoiItoa | configuration/azure/appconfig/appconfig.go:147-151 | every 64-bit integer, written in canonical decimal, parses back to itself |
| Decimal.AtoiPlusSign | configuration/azure/appconfig/appconfig.go:147 | an explicit leading `+` does not change what a number parses to |
| AppConfigMetadata.ReadOption | configuration/azure/appconfig/appconfig.go:145-152 | an integer option that is absent or empty takes its default; one that is present parses as a decimal integer or fails naming the option and the parse error |
| AppConfigMetadata.ParseMetadata | configuration/azure/appconfig/appconfig.go:126-182 | both host and connection string given fails, neither given fails (an empty property counts as absent), and these checks come before any numeric one; otherwise the one given is recorded, each option is its default or its parsed value, and the error reported is the first option, in the order maxRetries, maxRetryDelay, retryDelay, subscribePollInterval, that does not parse |
| AppConfigMetadata.ParseRender | configuration/azure/appconfig/appconfig.go:126-182 | any configuration with exactly one target and 64-bit options, written out as properties, parses back to itself |
| AppConfigMetadata.DefaultsWhenAbsent | configuration/azure/appconfig/appconfig.go:43-46 | a single target and no integer options give 3 retries, 120 s, 4 s and 30 s, in nanoseconds |
| Fetcher.LabelFromMetadata | configuration/azure/appconfig/appconfig.go:260-266 | the label filter is the request's "label" entry when present and non-empty, and none otherwise |
| Fetcher.ItemOf | configuration/azure/appconfig/appconfig.go:207-213 | an item carries the store's value, and its metadata has a "label" entry exactly when the store reported a label, holding that label, and nothing else |
| Fetcher.ReadKeys | configuration/azure/appconfig/appconfig.go:194-216 | point reads in request order succeed exactly when every key's read succeeds; then the result's keys are exactly the requested keys, each with its item; otherwise the error is that of the first failing key, and no items are returned |
| Fetcher.Absorb | configuration/azure/appconfig/appconfig.go:242-252 | adding listed settings covers every listed key, keeps earlier entries for unlisted keys, and gives each listed key the item of its last listed setting |
| Fetcher.ListingExtend | configuration/azure/appconfig/appconfig.go:240-252 | adding the settings of one more page to the items of a listing gives the listing of all the settings so far, in order |
| Fetcher.CollectPages | configuration/azure/appconfig/appconfig.go:240-257 | a listing succeeds exactly when every page does, and then holds every key of every page with the item of its last listed setting; otherwise its error is the first failing page's |
| Fetcher.CollectPagesStopsAtFailure | configuration/azure/appconfig/appconfig.go:240-256 | pages after the first failing page never affect the result |
| Fetcher.ListSelector | configuration/azure/appconfig/appconfig.go:227-238 | a full listing always uses key filter "*", and uses the request's label as the label filter, or "*" when none is given |
| Fetcher.GetAll | configuration/azure/appconfig/appconfig.go:224-258 | the full listing under that selector either returns every listed key with its last item or fails with the first page error, wrapped |
| Fetcher.Get | configuration/azure/appconfig/appconfig.go:184-222 | an empty key list lists everything; a non-empty one reads each key under the request's label filter and either returns exactly the requested keys with their items or the first read error, with no partial result |
| Fetcher.ExampleListing | configuration/azure/appconfig/appconfig.go:224-258 | a listing under label "prod" returns only the "prod" items, and one with no label returns all items with their labels |
| Subscriptions.SentinelKey | configuration/azure/appconfig/appconfig.go:347-352 | the sentinel key is the request's non-empty "sentinelKey" entry, and "" otherwise |
| Subscriptions.Reserve | configuration/azure/appconfig/appconfig.go:276-283 | the reserved keys are exactly the requested keys nobody owned, each once, in request order; they now map to the new id and every earlier owner is kept |
| Subscriptions.ReserveStep | configuration/azure/appconfig/appconfig.go:277-283 | one loop iteration keeps the reservation properties: the next key is taken exactly when nobody owns it yet |
| Subscriptions.ReserveNothing | configuration/azure/appconfig/appconfig.go:284-286 | nothing is reserved exactly when every requested key was already owned, and then the key map is unchanged |
| Subscriptions.Subscribe | configuration/azure/appconfig/appconfig.go:268-298 | the id always joins the stop set; a request succeeds exactly when it names a sentinel and some requested key is free; a missing sentinel fails with its own error, and otherwise the request fails exactly when no requested key is free; a failure leaves both key maps unchanged; a success returns the reserved keys, maps them to the id, keeps other owners, and records the list under the id |
| Subscriptions.SubscribePreservesValid | configuration/azure/appconfig/appconfig.go:276-293 | with a fresh id, subscribing keeps the two maps mirrored and duplicate-free, and the id's list is exactly its reserved keys |
| Subscriptions.Unsubscribe | configuration/azure/appconfig/appconfig.go:354-367 | an id without a stop signal changes nothing; otherwise its stop signal and key list go, and a key leaves the key map exactly when it is on the id's list, whoever owns it, with the remaining owners unchanged |
| Subscriptions.UnsubscribeReleasesOwnKeys | configuration/azure/appconfig/appconfig.go:359-365 | in a consistent registry, unsubscribing removes exactly the keys the id owned and leaves every other subscription's keys and list as they were |
| Subscriptions.UnsubscribePreservesValid | configuration/azure/appconfig/appconfig.go:354-367 | unsubscribing keeps the registry consistent |
| Subscriptions.UnsubscribeIdempotent | configuration/azure/appconfig/appconfig.go:354-367 | a second unsubscribe of the same id changes nothing |
| Subscriptions.ReserveUnowned | configuration/azure/appconfig/appconfig.go:277-283 | requested keys that are free and distinct are all reserved, in request order |
| Subscriptions.ReleasedKeysReservable | configuration/azure/appconfig/appconfig.go:354-367 | after unsubscribing, a new subscription asking for the released keys gets all of them |
| Subscriptions.OverlappingSubscriptions | configuration/azure/appconfig/appconfig.go:277-286 | with two subscriptions in a row, every free key of the first goes to the first, and the second reserves exactly the keys it asks for that neither the first nor an earlier owner holds |
| PollLoop.PollCycle | configuration/azure/appconfig/appconfig.go:300-319 | an event produced by a cycle carries the subscription's id |
| PollLoop.PollCycleReads | configuration/azure/appconfig/appconfig.go:302-318 | a cycle yields an event exactly when the sentinel read and every watched key's read succeed, and the event holds every watched key's item; a failed sentinel read yields nothing |
| PollLoop.CycleDeliveries | configuration/azure/appconfig/appconfig.go:314-318 | a cycle calls the handler at most once, exactly when it yields an event, with that event |
| PollLoop.DeliveredIds | configuration/azure/appconfig/appconfig.go:300-319 | every event a subscription's cycles deliver carries the subscription's id |
| PollLoop.Run | configuration/azure/appconfig/appconfig.go:300-328 | the loop ends exactly when some wait ends with the stop signal or the context's cancellation, and at the first such wait; until then every wait is the poll interval; its handler calls are those of the cycles that ran |
| PollLoop.NoCycleAfterExit | configuration/azure/appconfig/appconfig.go:320-324 | once the loop has returned, nothing later starts a cycle or a handler call |
| PollLoop.RunLengthFromWaits | configuration/azure/appconfig/appconfig.go:320-326 | how many cycles run, and whether the loop returns, depends on the waits alone, whatever the cycles read or deliver |
| PollLoop.DeliveredEventsAgree | configuration/azure/appconfig/appconfig.go:310-318 | cycles against the same stores deliver the same events |
| PollLoop.HandlerOutcomeIgnored | configuration/azure/appconfig/appconfig.go:330-345 | a handler error or panic changes neither the cycles run nor the events delivered |
| PollLoop.UnchangedStoreRedelivers | configuration/azure/appconfig/appconfig.go:302-318 | with a store that stays the same, every cycle run delivers the same event again |
| PollLoop.ReadKeysAgree | configuration/azure/appconfig/appconfig.go:195-216 | point reads of keys on which two stores agree give the same result |
| PollLoop.SentinelValueIgnored | configuration/azure/appconfig/appconfig.go:303-317 | two stores that agree on the watched keys and both answer the sentinel read give the same cycle, whatever their sentinel values |
| PollLoop.ExampleSubscribe | configuration/azure/appconfig/appconfig.go:268-298 | subscribing to "a" and "b" on an empty registry reserves both |
| PollLoop.ExamplePoll | configuration/azure/appconfig/appconfig.go:300-328 | with a = "1" and b = "2", a cycle followed by the stop signal delivers exactly those items once |
| PollLoop.ExampleSubscribePollStop | configuration/azure/appconfig/appconfig.go:268-328 | subscribe, one delivery, stop, and nothing after |

## Left out

- `Init` (lines 76-124) is not modelled. It builds the Azure SDK client, looks up credentials and sets telemetry. Line 89 narrows `maxRetries` to 32 bits, and line 90 passes `maxRetryDelay` as the retry delay, so the parsed `retryDelay` is never used.
- Decimal.Atoi: for text whose digits overflow 64 bits before a later non-digit (such as "99999999999999999999x"), Go reports a range error and the model a syntax error. Both are failures, and the component only reports that parsing failed.
- AppConfigMetadata.ParseMetadata: on an error Go also returns the partly filled record; every caller discards it, so the model returns only the error.
- Fetcher.Get: Go dereferences the store's value pointer; the model assumes the store always reports a value. The request context passed to each call is not modelled.
- The paging transport and the Azure client are replaced by the `Backend` functions. Retries happen inside the client and are not modelled.
- Goroutines, `sync.Map`, channels and `time.After` are not modelled. The poll loop is a sequence of abstract cycles, each followed by the wait that fired first. Closing the stop channel is the `StopSignal` wake.
- The registry has no lock in the code, so there is no mutual-exclusion claim. Only sequential `Subscribe`/`Unsubscribe` calls are modelled.
- `uuid.New` is replaced by an id parameter. The invariant lemmas require that the id is not in the stop set.
- `Unsubscribe` always returns nil, so the model returns only the new registry.
- The request is copied, not shared. Go's `Subscribe` overwrites the caller's `req.Keys` with the reserved keys (line 295), and the poll goroutine reads `req.Keys` and `req.Metadata` through the request pointer on every cycle (lines 305, 311 and 312). The model returns the reserved keys in `Subscription.keys`, which stands for the rewritten `req.Keys`, and the loop reads that copy. A caller that edits its request after subscribing is not modelled. Go returns only the id; the model also returns the keys and metadata the loop uses.
- Logging is not modelled. A handler's error or panic is recorded in the trace and has no other effect, which is what `recover` and the logged error amount to.
