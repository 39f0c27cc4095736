/** The component's configuration: which store to reach (a host or a
    connection string, exactly one) and four optional integer settings,
    read from the string properties the host application supplies. */
module AppConfigMetadata {
  import opened Wrappers
  import opened Decimal

  const HostKey := "appConfigHost"
  const ConnectionStringKey := "appConfigConnectionString"
  const MaxRetriesKey := "maxRetries"
  const RetryDelayKey := "retryDelay"
  const MaxRetryDelayKey := "maxRetryDelay"
  const SubscribePollIntervalKey := "subscribePollInterval"

  /** Durations are Go `time.Duration` values: integer nanoseconds. */
  const Second: int := 1_000_000_000
  const DefaultMaxRetries: int := 3
  const DefaultRetryDelay: int := 4 * Second
  const DefaultMaxRetryDelay: int := 120 * Second
  const DefaultSubscribePollInterval: int := 30 * Second

  type Properties = map<string, string>

  datatype Metadata = Metadata(
    host: string,
    connectionString: string,
    maxRetries: int,
    maxRetryDelay: int,
    retryDelay: int,
    subscribePollInterval: int)

  datatype ConfigError =
    | BothTargets
    | NoTarget
    | BadOption(name: string, cause: NumError)

  /** A property's value, where a missing property reads as the empty string. */
  function Prop(p: Properties, name: string): string {
    if name in p then p[name] else ""
  }

  predicate OneTarget(p: Properties) {
    (Prop(p, HostKey) == "") != (Prop(p, ConnectionStringKey) == "")
  }

  /** An integer option is acceptable when it is absent, empty, or a decimal integer. */
  predicate OptionParses(p: Properties, name: string) {
    Prop(p, name) == "" || Atoi(Prop(p, name)).Success?
  }

  /** `v` is the value option `name` takes: the default when absent or empty,
      otherwise the parsed integer. */
  predicate OptionValue(p: Properties, name: string, default: int, v: int) {
    if Prop(p, name) == "" then v == default else Atoi(Prop(p, name)) == Success(v)
  }

  predicate AllOptionsParse(p: Properties) {
    && OptionParses(p, MaxRetriesKey)
    && OptionParses(p, MaxRetryDelayKey)
    && OptionParses(p, RetryDelayKey)
    && OptionParses(p, SubscribePollIntervalKey)
  }

  /** The options are read in the order maxRetries, maxRetryDelay, retryDelay,
      subscribePollInterval: `name` is the first of them that does not parse. */
  predicate FirstBadOption(p: Properties, name: string) {
    && !OptionParses(p, name)
    && (|| name == MaxRetriesKey
        || (name == MaxRetryDelayKey && OptionParses(p, MaxRetriesKey))
        || (name == RetryDelayKey && OptionParses(p, MaxRetriesKey) && OptionParses(p, MaxRetryDelayKey))
        || (name == SubscribePollIntervalKey && OptionParses(p, MaxRetriesKey)
            && OptionParses(p, MaxRetryDelayKey) && OptionParses(p, RetryDelayKey)))
  }

  function ReadOption(p: Properties, name: string, default: int): (r: Result<int, ConfigError>)
    ensures r.Success? <==> OptionParses(p, name)
    ensures r.Success? ==> OptionValue(p, name, default, r.value)
    ensures r.Failure? ==> Atoi(Prop(p, name)).Failure? && r.error == BadOption(name, Atoi(Prop(p, name)).error)
  {
    if name in p && p[name] != "" then
      match Atoi(p[name])
      case Success(n) => Success(n)
      case Failure(e) => Failure(BadOption(name, e))
    else
      Success(default)
  }

  function ParseMetadata(p: Properties): (r: Result<Metadata, ConfigError>)
    ensures r == Failure(BothTargets) <==> Prop(p, HostKey) != "" && Prop(p, ConnectionStringKey) != ""
    ensures r == Failure(NoTarget) <==> Prop(p, HostKey) == "" && Prop(p, ConnectionStringKey) == ""
    ensures r.Success? <==> OneTarget(p) && AllOptionsParse(p)
    ensures r.Success? ==>
      && r.value.host == Prop(p, HostKey)
      && r.value.connectionString == Prop(p, ConnectionStringKey)
      && OptionValue(p, MaxRetriesKey, DefaultMaxRetries, r.value.maxRetries)
      && OptionValue(p, MaxRetryDelayKey, DefaultMaxRetryDelay, r.value.maxRetryDelay)
      && OptionValue(p, RetryDelayKey, DefaultRetryDelay, r.value.retryDelay)
      && OptionValue(p, SubscribePollIntervalKey, DefaultSubscribePollInterval, r.value.subscribePollInterval)
    ensures r.Failure? && r.error.BadOption? ==>
      && OneTarget(p)
      && FirstBadOption(p, r.error.name)
      && Atoi(Prop(p, r.error.name)) == Failure(r.error.cause)
  {
    var host := Prop(p, HostKey);
    var connectionString := Prop(p, ConnectionStringKey);
    if connectionString != "" && host != "" then Failure(BothTargets)
    else if connectionString == "" && host == "" then Failure(NoTarget)
    else
      var maxRetries :- ReadOption(p, MaxRetriesKey, DefaultMaxRetries);
      var maxRetryDelay :- ReadOption(p, MaxRetryDelayKey, DefaultMaxRetryDelay);
      var retryDelay :- ReadOption(p, RetryDelayKey, DefaultRetryDelay);
      var pollInterval :- ReadOption(p, SubscribePollIntervalKey, DefaultSubscribePollInterval);
      Success(Metadata(host, connectionString, maxRetries, maxRetryDelay, retryDelay, pollInterval))
  }

  /** The properties a host application would write to configure `m`, every
      integer in canonical decimal. */
  function Render(m: Metadata): Properties {
    map[
      HostKey := m.host,
      ConnectionStringKey := m.connectionString,
      MaxRetriesKey := Itoa(m.maxRetries),
      MaxRetryDelayKey := Itoa(m.maxRetryDelay),
      RetryDelayKey := Itoa(m.retryDelay),
      SubscribePollIntervalKey := Itoa(m.subscribePollInterval)]
  }

  predicate Representable(m: Metadata) {
    && (m.host == "") != (m.connectionString == "")
    && InInt64(m.maxRetries)
    && InInt64(m.maxRetryDelay)
    && InInt64(m.retryDelay)
    && InInt64(m.subscribePollInterval)
  }

  /** Every configuration with exactly one target and 64-bit options survives
      being written out as properties and parsed back. */
  lemma ParseRender(m: Metadata)
    requires Representable(m)
    ensures ParseMetadata(Render(m)) == Success(m)
  {
    var p := Render(m);
    AtoiItoa(m.maxRetries);
    AtoiItoa(m.maxRetryDelay);
    AtoiItoa(m.retryDelay);
    AtoiItoa(m.subscribePollInterval);
    assert Prop(p, HostKey) == m.host;
    assert Prop(p, ConnectionStringKey) == m.connectionString;
    assert Prop(p, MaxRetriesKey) == Itoa(m.maxRetries);
    assert Prop(p, MaxRetryDelayKey) == Itoa(m.maxRetryDelay);
    assert Prop(p, RetryDelayKey) == Itoa(m.retryDelay);
    assert Prop(p, SubscribePollIntervalKey) == Itoa(m.subscribePollInterval);
  }

  /** With no integer option given, a single target yields all four defaults. */
  lemma DefaultsWhenAbsent(target: string, useHost: bool)
    requires target != ""
    ensures var p := if useHost then map[HostKey := target] else map[ConnectionStringKey := target];
            ParseMetadata(p) == Success(Metadata(
              if useHost then target else "", if useHost then "" else target,
              3, 120 * Second, 4 * Second, 30 * Second))
  {
  }
}
