/**
 The discovery cache of backend/app/providers/catalog.py: it keeps the last good catalog of
 each provider across outages, revalidates it by ETag, and spaces fetches by a cooldown.
 `I` stands for the tuple of model snapshots in a response.
 */
module Discovery {
  import opened Wrappers

  datatype Response<I> = Response(items: I, etag: Option<string>, notModified: bool)

  datatype Fetch<I> = Fetched(response: Response<I>) | Raised

  datatype DiscoveryState<I> = DiscoveryState(
    items: I, etag: Option<string>, fetchedAt: int, stale: bool, error: Option<string>, notModified: bool)

  datatype Config = Config(ttl: int, cooldown: int)

  datatype Cache<I> = Cache(states: map<string, DiscoveryState<I>>, lastRefresh: map<string, int>)

  /** What one refresh does; `result` is None when it raises, `fetch` is what the fetcher answered, if called. */
  datatype Outcome<I> = Outcome(cache: Cache<I>, result: Option<DiscoveryState<I>>, fetch: Option<Fetch<I>>)

  function GetState<I>(config: Config, cache: Cache<I>, provider: string, now: int): Option<DiscoveryState<I>> {
    if provider !in cache.states then None
    else
      var state := cache.states[provider];
      Some(state.(stale := now - state.fetchedAt > config.ttl))
  }

  predicate CoolingDown<I>(config: Config, cache: Cache<I>, provider: string, now: int) {
    provider in cache.lastRefresh && now - cache.lastRefresh[provider] < config.cooldown && provider in cache.states
  }

  /** The validator sent along: the etag of the held snapshot. */
  function Validator<I>(cache: Cache<I>, provider: string): Option<string> {
    if provider in cache.states then cache.states[provider].etag else None
  }

  function NewState<I>(previous: Option<DiscoveryState<I>>, fetch: Fetch<I>, now: int): Option<DiscoveryState<I>> {
    if fetch.Fetched? && !fetch.response.notModified then
      Some(DiscoveryState(fetch.response.items, fetch.response.etag, now, false, None, false))
    else if previous.None? then None
    else if fetch.Fetched? then
      Some(DiscoveryState(previous.value.items, previous.value.etag, now, false, None, true))
    else
      Some(DiscoveryState(previous.value.items, previous.value.etag, previous.value.fetchedAt, true,
                          Some("DISCOVERY_UNAVAILABLE"), false))
  }

  function RefreshState<I>(config: Config, cache: Cache<I>, provider: string,
                           fetcher: Option<string> -> Fetch<I>, now: int): Outcome<I>
  {
    if CoolingDown(config, cache, provider, now) then
      Outcome(cache, GetState(config, cache, provider, now), None)
    else
      var fetch := fetcher(Validator(cache, provider));
      var previous := if provider in cache.states then Some(cache.states[provider]) else None;
      var state := NewState(previous, fetch, now);
      Outcome(Cache(if state.Some? then cache.states[provider := state.value] else cache.states,
                    cache.lastRefresh[provider := now]),
              state, Some(fetch))
  }

  // ---------------------------------------------------------------- runs

  /** One call of `refresh` and how the provider would answer it. */
  datatype Call<!I> = Call(provider: string, now: int, fetcher: Option<string> -> Fetch<I>)

  function Run<I>(config: Config, calls: seq<Call<I>>): Cache<I> {
    if calls == [] then Cache(map[], map[])
    else
      var last := calls[|calls| - 1];
      RefreshState(config, Run(config, calls[..|calls| - 1]), last.provider, last.fetcher, last.now).cache
  }

  /** What happens in call number k of a run. */
  function At<I>(config: Config, calls: seq<Call<I>>, k: nat): Outcome<I>
    requires k < |calls|
  {
    RefreshState(config, Run(config, calls[..k]), calls[k].provider, calls[k].fetcher, calls[k].now)
  }

  /** The last full response a provider gave: the answer of the latest fetch that was neither a failure nor a 304. */
  function LastFull<I>(config: Config, calls: seq<Call<I>>, provider: string): Option<Response<I>> {
    if calls == [] then None
    else
      var k := |calls| - 1;
      var fetch := At(config, calls, k).fetch;
      if calls[k].provider == provider && fetch.Some? && Full(fetch.value) then Some(fetch.value.response)
      else LastFull(config, calls[..k], provider)
  }

  /**
   Coherence over every run: a provider has a snapshot exactly when it ever answered in
   full, and the items and the etag held are both those of its last full response.
   */
  lemma {:induction false} ItemsAndEtagBelongTogether<I>(config: Config, calls: seq<Call<I>>, provider: string)
    ensures var cache, full := Run(config, calls), LastFull(config, calls, provider);
            && (provider in cache.states <==> full.Some?)
            && (full.Some? ==>
                  && cache.states[provider].items == full.value.items
                  && cache.states[provider].etag == full.value.etag)
  {
    if calls != [] {
      ItemsAndEtagBelongTogether(config, calls[..|calls| - 1], provider);
    }
  }

  predicate Full<I>(fetch: Fetch<I>) {
    fetch.Fetched? && !fetch.response.notModified
  }

  /**
   In every run a refresh raises if and only if the provider has never answered in full and
   does not do so now; once there is a snapshot, there always is one.
   */
  lemma RaisesIff<I>(config: Config, calls: seq<Call<I>>, k: nat)
    requires k < |calls|
    ensures At(config, calls, k).result.None? <==>
            && LastFull(config, calls[..k], calls[k].provider).None?
            && At(config, calls, k).fetch.Some? && !Full(At(config, calls, k).fetch.value)
    ensures LastFull(config, calls[..k], calls[k].provider).Some? ==>
            calls[k].provider in At(config, calls, k).cache.states
  {
    ItemsAndEtagBelongTogether(config, calls[..k], calls[k].provider);
  }

  ghost predicate Nondecreasing<I>(calls: seq<Call<I>>) {
    forall i, j :: 0 <= i < j < |calls| ==> calls[i].now <= calls[j].now
  }

  predicate FetchedAt<I>(config: Config, calls: seq<Call<I>>, k: nat, provider: string)
    requires k < |calls|
  {
    calls[k].provider == provider && At(config, calls, k).fetch.Some?
  }

  /** Under a nondecreasing clock the recorded refresh time is no earlier than any fetch so far. */
  lemma {:induction false} LastRefreshIsLatest<I>(config: Config, calls: seq<Call<I>>, provider: string, k: nat)
    requires Nondecreasing(calls) && k < |calls| && FetchedAt(config, calls, k, provider)
    ensures provider in Run(config, calls).lastRefresh
    ensures calls[k].now <= Run(config, calls).lastRefresh[provider] <= calls[|calls| - 1].now
  {
    var n := |calls| - 1;
    var init := calls[..n];
    if k < n {
      assert init[..k] == calls[..k];
      LastRefreshIsLatest(config, init, provider, k);
    } else {
      assert calls[..n] == init;
    }
  }

  /** With a snapshot in hand, a provider is never fetched twice within the cooldown. */
  lemma CooldownIsKept<I>(config: Config, calls: seq<Call<I>>, provider: string, i: nat, j: nat)
    requires Nondecreasing(calls) && i < j < |calls|
    requires FetchedAt(config, calls, i, provider) && FetchedAt(config, calls, j, provider)
    requires provider in Run(config, calls[..j]).states
    ensures calls[j].now - calls[i].now >= config.cooldown
  {
    var before := calls[..j];
    assert before[..i] == calls[..i];
    LastRefreshIsLatest(config, before, provider, i);
  }

  // ---------------------------------------------------------------- honest servers

  /**
   An answer a server with this content may give to a validator: "not modified" only for
   the etag of the content, otherwise the content, with its etag or without one.
   */
  ghost predicate Honest<I>(etagOf: I -> string, content: I, validator: Option<string>, fetch: Fetch<I>) {
    fetch.Fetched? ==>
      if fetch.response.notModified then validator == Some(etagOf(content))
      else
        && fetch.response.items == content
        && (fetch.response.etag.Some? ==> fetch.response.etag.value == etagOf(content))
  }

  /**
   Each call of this provider goes to a server whose content at that moment is content(k);
   nothing is said about the calls of other providers.
   */
  ghost predicate HonestRun<I>(etagOf: I -> string, calls: seq<Call<I>>, content: nat -> I, provider: string) {
    forall k, validator :: 0 <= k < |calls| && calls[k].provider == provider ==>
      Honest(etagOf, content(k), validator, calls[k].fetcher(validator))
  }

  ghost predicate EtagsIdentify<I(!new)>(etagOf: I -> string) {
    forall a, b :: etagOf(a) == etagOf(b) ==> a == b
  }

  lemma HonestPrefix<I>(etagOf: I -> string, calls: seq<Call<I>>, content: nat -> I, provider: string, n: nat)
    requires HonestRun(etagOf, calls, content, provider) && n <= |calls|
    ensures HonestRun(etagOf, calls[..n], content, provider)
  {
    forall k, validator | 0 <= k < n && calls[..n][k].provider == provider
      ensures Honest(etagOf, content(k), validator, calls[..n][k].fetcher(validator))
    {
      assert Honest(etagOf, content(k), validator, calls[k].fetcher(validator));
    }
  }

  lemma {:induction false} HeldEtagIsOfHeldItems<I(!new)>(config: Config, etagOf: I -> string, calls: seq<Call<I>>,
                                                          content: nat -> I, provider: string)
    requires HonestRun(etagOf, calls, content, provider) && EtagsIdentify(etagOf)
    requires provider in Run(config, calls).states
    ensures var state := Run(config, calls).states[provider];
            state.etag.Some? ==> state.etag.value == etagOf(state.items)
  {
    var n := |calls| - 1;
    var init, last := calls[..n], calls[n];
    HonestPrefix(etagOf, calls, content, provider, n);
    if provider in Run(config, init).states {
      HeldEtagIsOfHeldItems(config, etagOf, init, content, provider);
    }
    if last.provider == provider {
      var validator := Validator(Run(config, init), provider);
      assert Honest(etagOf, content(n), validator, calls[n].fetcher(validator));
    }
  }

  /**
   Against a server whose etags identify its content, every fetch without error leaves
   exactly the items that an unconditional fetch at that moment would have returned,
   however the other providers behave.
   */
  lemma FetchIsUpToDate<I(!new)>(config: Config, etagOf: I -> string, calls: seq<Call<I>>, content: nat -> I, k: nat)
    requires k < |calls| && HonestRun(etagOf, calls, content, calls[k].provider) && EtagsIdentify(etagOf)
    requires At(config, calls, k).fetch.Some? && At(config, calls, k).fetch.value.Fetched?
    ensures At(config, calls, k).result.Some?
    ensures At(config, calls, k).result.value.items == content(k)
    ensures At(config, calls, k).cache.states[calls[k].provider].items == content(k)
    ensures !At(config, calls, k).result.value.stale && At(config, calls, k).result.value.error == None
  {
    var before := calls[..k];
    var provider := calls[k].provider;
    HonestPrefix(etagOf, calls, content, provider, k);
    var validator := Validator(Run(config, before), provider);
    assert Honest(etagOf, content(k), validator, calls[k].fetcher(validator));
    if provider in Run(config, before).states {
      HeldEtagIsOfHeldItems(config, etagOf, before, content, provider);
    }
  }

  // ---------------------------------------------------------------- staleness

  /** When the provider last confirmed what is held: the time of its latest fetch that left a snapshot without error. */
  function LastConfirmed<I>(config: Config, calls: seq<Call<I>>, provider: string): Option<int> {
    if calls == [] then None
    else
      var k := |calls| - 1;
      if calls[k].provider == provider && Confirms(At(config, calls, k)) then Some(calls[k].now)
      else LastConfirmed(config, calls[..k], provider)
  }

  predicate Confirms<I>(outcome: Outcome<I>) {
    outcome.fetch.Some? && outcome.fetch.value.Fetched? && outcome.result.Some?
  }

  /** Whether the latest fetch of the provider was one that failed, after a snapshot had been obtained. */
  predicate InOutage<I>(config: Config, calls: seq<Call<I>>, provider: string) {
    calls != [] &&
    var k := |calls| - 1;
    if calls[k].provider == provider && At(config, calls, k).fetch.Some? && At(config, calls, k).result.Some?
    then At(config, calls, k).fetch.value.Raised?
    else InOutage(config, calls[..k], provider)
  }

  /** Whether the latest fetch of the provider that left a snapshot was answered "not modified". */
  predicate Unmodified<I>(config: Config, calls: seq<Call<I>>, provider: string) {
    calls != [] &&
    var k := |calls| - 1;
    if calls[k].provider == provider && At(config, calls, k).fetch.Some? && At(config, calls, k).result.Some?
    then At(config, calls, k).fetch.value.Fetched? && At(config, calls, k).fetch.value.response.notModified
    else Unmodified(config, calls[..k], provider)
  }

  /** In every run the held snapshot is dated by the last confirmation, and marked exactly in an outage. */
  lemma {:induction false} HeldIsDated<I>(config: Config, calls: seq<Call<I>>, provider: string)
    ensures var cache := Run(config, calls);
            && (provider in cache.states <==> LastConfirmed(config, calls, provider).Some?)
            && (provider in cache.states ==>
                  var held := cache.states[provider];
                  && held.fetchedAt == LastConfirmed(config, calls, provider).value
                  && (held.stale <==> InOutage(config, calls, provider))
                  && (held.notModified <==> Unmodified(config, calls, provider))
                  && held.error == if InOutage(config, calls, provider) then Some("DISCOVERY_UNAVAILABLE") else None)
    ensures InOutage(config, calls, provider) ==> provider in Run(config, calls).states
  {
    if calls != [] {
      HeldIsDated(config, calls[..|calls| - 1], provider);
    }
  }

  /** A snapshot of the last full response, dated by the last confirmation. */
  predicate Shows<I(==)>(state: DiscoveryState<I>, config: Config, calls: seq<Call<I>>, provider: string) {
    var full, confirmed := LastFull(config, calls, provider), LastConfirmed(config, calls, provider);
    full.Some? && confirmed.Some? && state.items == full.value.items && state.etag == full.value.etag
    && state.fetchedAt == confirmed.value
  }

  /**
   What `get` reports in every run: what the provider last answered in full; stale exactly
   when the last confirmation is older than the ttl, so an old snapshot is never reported
   fresh; an error exactly in an outage.
   */
  lemma StaleIffOld<I>(config: Config, calls: seq<Call<I>>, provider: string, now: int)
    requires LastFull(config, calls, provider).Some?
    ensures LastConfirmed(config, calls, provider).Some?
    ensures var shown := GetState(config, Run(config, calls), provider, now);
            && shown.Some? && Shows(shown.value, config, calls, provider)
            && (shown.value.stale <==> now - LastConfirmed(config, calls, provider).value > config.ttl)
            && (shown.value.notModified <==> Unmodified(config, calls, provider))
            && shown.value.error == if InOutage(config, calls, provider) then Some("DISCOVERY_UNAVAILABLE") else None
  {
    HeldIsDated(config, calls, provider);
    ItemsAndEtagBelongTogether(config, calls, provider);
  }

  /** When the provider was last fetched, with whatever outcome. */
  function LastFetch<I>(config: Config, calls: seq<Call<I>>, provider: string): Option<int> {
    if calls == [] then None
    else
      var k := |calls| - 1;
      if FetchedAt(config, calls, k, provider) then Some(calls[k].now) else LastFetch(config, calls[..k], provider)
  }

  lemma {:induction false} LastRefreshIsFetch<I>(config: Config, calls: seq<Call<I>>, provider: string)
    ensures var recorded := Run(config, calls).lastRefresh;
            LastFetch(config, calls, provider)
            == if provider in recorded then Some(recorded[provider]) else None
  {
    if calls != [] {
      LastRefreshIsFetch(config, calls[..|calls| - 1], provider);
    }
  }

  /**
   In every run a refresh fetches exactly when there is no snapshot or the cooldown since the
   last fetch, successful or not, is over; it then sends the etag of the last full response.
   */
  lemma FetchesIff<I>(config: Config, calls: seq<Call<I>>, k: nat)
    requires k < |calls|
    ensures var before, provider := calls[..k], calls[k].provider;
            var full, last := LastFull(config, before, provider), LastFetch(config, before, provider);
            && (At(config, calls, k).fetch.Some? <==>
                  full.None? || last.None? || calls[k].now - last.value >= config.cooldown)
            && (At(config, calls, k).fetch.Some? ==>
                  At(config, calls, k).fetch.value
                  == calls[k].fetcher(if full.Some? then full.value.etag else None))
  {
    LastRefreshIsFetch(config, calls[..k], calls[k].provider);
    ItemsAndEtagBelongTogether(config, calls[..k], calls[k].provider);
  }

  /**
   What a refresh returns in every run: a full answer as it came; the snapshot of the last
   full answer, confirmed now by "not modified", or as old as it is when the fetch failed; and
   without a fetch what `get` reports.
   */
  lemma RefreshReports<I>(config: Config, calls: seq<Call<I>>, k: nat)
    requires k < |calls| && At(config, calls, k).result.Some?
    ensures var before, provider, now := calls[..k], calls[k].provider, calls[k].now;
            var state := At(config, calls, k).result.value;
            match At(config, calls, k).fetch
            case None => Some(state) == GetState(config, Run(config, before), provider, now)
            case Some(fetch) =>
              if Full(fetch) then
                state == DiscoveryState(fetch.response.items, fetch.response.etag, now, false, None, false)
              else if fetch.Fetched? then
                && LastFull(config, before, provider).Some?
                && var full := LastFull(config, before, provider).value;
                   state == DiscoveryState(full.items, full.etag, now, false, None, true)
              else
                && Shows(state, config, before, provider)
                && state.stale && state.error == Some("DISCOVERY_UNAVAILABLE") && !state.notModified
  {
    ItemsAndEtagBelongTogether(config, calls[..k], calls[k].provider);
    HeldIsDated(config, calls[..k], calls[k].provider);
  }

  /**
   The exact condition under which the stale mark of a failed refresh is still reported, by
   `get` and by a refresh within the cooldown: the snapshot is older than the ttl anyway.
   */
  lemma OutageMarkSurvivesIff<I>(config: Config, calls: seq<Call<I>>, call: Call<I>)
    requires InOutage(config, calls, call.provider)
    ensures var cache := Run(config, calls);
            && call.provider in cache.states && cache.states[call.provider].stale
            && LastConfirmed(config, calls, call.provider).Some?
    ensures var cache := Run(config, calls);
            var shown := GetState(config, cache, call.provider, call.now);
            && (shown.value.stale <==> call.now - LastConfirmed(config, calls, call.provider).value > config.ttl)
            && (CoolingDown(config, cache, call.provider, call.now) ==>
                  RefreshState(config, cache, call.provider, call.fetcher, call.now).result == shown)
  {
    HeldIsDated(config, calls, call.provider);
  }

  /**
   A full answer at 0 and a failure at 100: the failure is answered stale, the `get` that
   follows fresh, with the error.
   */
  lemma OutageMarkIsLost<I>(items: I, provider: string)
    ensures var config := Config(86400, 60);
            var answer := Call(provider, 0, (etag: Option<string>) => Fetched(Response(items, None, false)));
            var failure := Call(provider, 100, (etag: Option<string>) => Raised);
            var calls := [answer, failure];
            && At(config, calls, 1).result.Some? && At(config, calls, 1).result.value.stale
            && GetState(config, Run(config, calls), provider, 100)
               == Some(DiscoveryState(items, None, 0, false, Some("DISCOVERY_UNAVAILABLE"), false))
  {
    var answer := Call(provider, 0, (etag: Option<string>) => Fetched(Response(items, None, false)));
    var failure: Call<I> := Call(provider, 100, (etag: Option<string>) => Raised);
    var calls := [answer, failure];
    assert calls[..1] == [answer] && [answer][..0] == [];
    assert Run(Config(86400, 60), [answer]).states[provider] == DiscoveryState(items, None, 0, false, None, false);
  }

  /** In every run, what a refresh returns as not stale was confirmed no longer ago than the ttl. */
  lemma FreshIsYoung<I>(config: Config, calls: seq<Call<I>>, k: nat)
    requires config.ttl >= 0 && k < |calls|
    requires At(config, calls, k).result.Some? && !At(config, calls, k).result.value.stale
    ensures LastConfirmed(config, calls[..k + 1], calls[k].provider).Some?
    ensures calls[k].now - LastConfirmed(config, calls[..k + 1], calls[k].provider).value <= config.ttl
  {
    assert calls[..k + 1][..k] == calls[..k];
    HeldIsDated(config, calls[..k + 1], calls[k].provider);
  }

  // ---------------------------------------------------------------- the class of the source

  class DiscoveryCache<!I> {
    const config: Config
    var states: map<string, DiscoveryState<I>>
    var lastRefresh: map<string, int>

    ghost function Value(): Cache<I>
      reads this
    {
      Cache(states, lastRefresh)
    }

    constructor (config: Config)
      ensures this.config == config && Value() == Cache(map[], map[])
    {
      this.config := config;
      states, lastRefresh := map[], map[];
    }

    method Get(provider: string, now: int) returns (state: Option<DiscoveryState<I>>)
      ensures state == GetState(config, Value(), provider, now)
    {
      if provider !in states {
        return None;
      }
      var held := states[provider];
      return Some(DiscoveryState(held.items, held.etag, held.fetchedAt, now - held.fetchedAt > config.ttl,
                                 held.error, held.notModified));
    }

    method Refresh(provider: string, fetcher: Option<string> -> Fetch<I>, now: int)
      returns (state: Option<DiscoveryState<I>>, ghost fetch: Option<Fetch<I>>)
      modifies this
      ensures Outcome(Value(), state, fetch) == RefreshState(config, old(Value()), provider, fetcher, now)
    {
      fetch := None;
      var known := provider in states;
      if provider in lastRefresh && now - lastRefresh[provider] < config.cooldown && known {
        state := Get(provider, now);
        return;
      }
      lastRefresh := lastRefresh[provider := now];
      var answer := fetcher(if known then states[provider].etag else None);
      fetch := Some(answer);
      var next: DiscoveryState<I>;
      if answer.Fetched? && answer.response.notModified && known {
        next := DiscoveryState(states[provider].items, states[provider].etag, now, false, None, true);
      } else if answer.Fetched? && !answer.response.notModified {
        next := DiscoveryState(answer.response.items, answer.response.etag, now, false, None, false);
      } else {
        if !known {
          return None, fetch;
        }
        next := DiscoveryState(states[provider].items, states[provider].etag, states[provider].fetchedAt, true,
                               Some("DISCOVERY_UNAVAILABLE"), false);
      }
      states := states[provider := next];
      return Some(next), fetch;
    }
  }
}
