/**
 Listing and paging model snapshots, backend/app/providers/catalog.py: filter, sort by
 (provider, model, id), and hand out pages that a client follows by opaque cursors.
 */
module Catalog {
  import opened Wrappers
  import opened PyText
  import opened Sorting
  import opened Cursor

  datatype CapabilityState = SUPPORTED | UNSUPPORTED | UNKNOWN

  datatype Model = Model(
    id: string, providerId: string, modelId: string, region: Option<string>, languages: seq<string>,
    pricing: string, stream: CapabilityState, structured: CapabilityState, translation: CapabilityState,
    contextTokens: Option<int>, benchmarkRef: Option<string>)

  datatype Filter = Filter(
    providerId: Option<string>, language: Option<string>, region: Option<string>, pricing: Option<string>,
    stream: Option<CapabilityState>, structured: Option<CapabilityState>, translation: Option<CapabilityState>,
    minContextTokens: Option<int>, benchmarked: Option<bool>)

  datatype CatalogError = LIMIT_OUT_OF_RANGE | CURSOR_INVALID | PROVIDER_ALREADY_REGISTERED

  predicate Matches(m: Model, f: Filter) {
    && (Given(f.providerId) ==> m.providerId == f.providerId.value)
    && (Given(f.language) ==> f.language.value in m.languages)
    && (Given(f.region) ==> m.region == f.region)
    && (f.pricing.Some? ==> m.pricing == f.pricing.value)
    && (f.stream.Some? ==> m.stream == f.stream.value)
    && (f.structured.Some? ==> m.structured == f.structured.value)
    && (f.translation.Some? ==> m.translation == f.translation.value)
    && (f.minContextTokens.Some? ==> m.contextTokens.Some? && m.contextTokens.value >= f.minContextTokens.value)
    && (f.benchmarked.Some? ==> (f.benchmarked.value <==> Given(m.benchmarkRef)))
  }

  predicate KeyLeq(a: Model, b: Model) {
    if a.providerId != b.providerId then StrLeq(a.providerId, b.providerId)
    else if a.modelId != b.modelId then StrLeq(a.modelId, b.modelId)
    else StrLeq(a.id, b.id)
  }

  lemma KeyLeqTotal(a: Model, b: Model)
    ensures KeyLeq(a, b) || KeyLeq(b, a)
  {
    StrLeqTotal(a.providerId, b.providerId);
    StrLeqTotal(a.modelId, b.modelId);
    StrLeqTotal(a.id, b.id);
  }

  lemma KeyLeqTransitive(a: Model, b: Model, c: Model)
    requires KeyLeq(a, b) && KeyLeq(b, c)
    ensures KeyLeq(a, c)
  {
    if a.providerId != b.providerId || b.providerId != c.providerId {
      StrLeqTotal(a.providerId, b.providerId);
      StrLeqTotal(b.providerId, c.providerId);
      if a.providerId != b.providerId && b.providerId != c.providerId {
        StrLeqTransitive(a.providerId, b.providerId, c.providerId);
        StrLeqTotal(a.providerId, c.providerId);
      }
    } else if a.modelId != b.modelId || b.modelId != c.modelId {
      StrLeqTotal(a.modelId, b.modelId);
      StrLeqTotal(b.modelId, c.modelId);
      if a.modelId != b.modelId && b.modelId != c.modelId {
        StrLeqTransitive(a.modelId, b.modelId, c.modelId);
        StrLeqTotal(a.modelId, c.modelId);
      }
    } else {
      StrLeqTransitive(a.id, b.id, c.id);
    }
  }

  lemma KeyOrder()
    ensures TotalPreorder(KeyLeq)
  {
    forall a, b ensures KeyLeq(a, b) || KeyLeq(b, a) { KeyLeqTotal(a, b); }
    forall a, b, c | KeyLeq(a, b) && KeyLeq(b, c) ensures KeyLeq(a, c) { KeyLeqTransitive(a, b, c); }
  }

  /** The order of a list: by provider, then by model, then by id, as texts compare. */
  predicate InListOrder(a: Model, b: Model) {
    || Precedes(a.providerId, b.providerId)
    || (a.providerId == b.providerId && Precedes(a.modelId, b.modelId))
    || (a.providerId == b.providerId && a.modelId == b.modelId && (Precedes(a.id, b.id) || a.id == b.id))
  }

  lemma KeyLeqIff(a: Model, b: Model)
    ensures KeyLeq(a, b) <==> InListOrder(a, b)
  {
    StrLeqIff(a.providerId, b.providerId);
    StrLeqIff(a.modelId, b.modelId);
    StrLeqIff(a.id, b.id);
  }

  function Select(models: seq<Model>, f: Filter): seq<Model> {
    if models == [] then []
    else
      var last := models[|models| - 1];
      Select(models[..|models| - 1], f) + if Matches(last, f) then [last] else []
  }

  /** `filter_model_snapshots` as a function. */
  function Filtered(models: seq<Model>, f: Filter): seq<Model> {
    SortBy(KeyLeq, Select(models, f))
  }

  lemma {:induction false} SelectCounts(models: seq<Model>, f: Filter, m: Model)
    ensures multiset(Select(models, f))[m] == if Matches(m, f) then multiset(models)[m] else 0
  {
    if models != [] {
      SelectCounts(models[..|models| - 1], f, m);
      assert models == models[..|models| - 1] + [models[|models| - 1]];
    }
  }

  /** The filtered list: sorted by key, every matching snapshot as often as it was given, no other. */
  lemma FilteredIsExact(models: seq<Model>, f: Filter, m: Model)
    ensures forall i, j :: 0 <= i < j < |Filtered(models, f)| ==>
              InListOrder(Filtered(models, f)[i], Filtered(models, f)[j])
    ensures multiset(Filtered(models, f))[m] == if Matches(m, f) then multiset(models)[m] else 0
  {
    KeyOrder();
    SortBySorts(KeyLeq, Select(models, f));
    SelectCounts(models, f, m);
    var r := Filtered(models, f);
    forall i, j | 0 <= i < j < |r| ensures InListOrder(r[i], r[j]) { KeyLeqIff(r[i], r[j]); }
  }

  /** No filter at all, on which each criterion below is set alone. */
  const Everything := Filter(None, None, None, None, None, None, None, None, None)

  /**
   Each criterion by itself: which models it lets through. An empty text filters nothing, a
   model of unknown context size fails any minimum, and a benchmark reference that is the
   empty text is none.
   */
  lemma CriteriaAlone(m: Model, text: string, state: CapabilityState, tokens: int)
    ensures Matches(m, Everything)
    ensures Matches(m, Everything.(providerId := Some(text))) <==> text == "" || m.providerId == text
    ensures Matches(m, Everything.(language := Some(text))) <==> text == "" || text in m.languages
    ensures Matches(m, Everything.(region := Some(text))) <==> text == "" || m.region == Some(text)
    ensures Matches(m, Everything.(pricing := Some(text))) <==> m.pricing == text
    ensures Matches(m, Everything.(stream := Some(state))) <==> m.stream == state
    ensures Matches(m, Everything.(structured := Some(state))) <==> m.structured == state
    ensures Matches(m, Everything.(translation := Some(state))) <==> m.translation == state
    ensures Matches(m, Everything.(minContextTokens := Some(tokens))) <==>
            m.contextTokens.Some? && tokens <= m.contextTokens.value
    ensures Matches(m, Everything.(benchmarked := Some(true))) <==>
            m.benchmarkRef.Some? && m.benchmarkRef.value != ""
    ensures Matches(m, Everything.(benchmarked := Some(false))) <==>
            m.benchmarkRef == None || m.benchmarkRef == Some("")
  {
  }

  /** A model matches a filter exactly when it passes every criterion of it set alone. */
  lemma MatchesIffEach(m: Model, f: Filter)
    ensures Matches(m, f) <==>
            && Matches(m, Everything.(providerId := f.providerId)) && Matches(m, Everything.(language := f.language))
            && Matches(m, Everything.(region := f.region)) && Matches(m, Everything.(pricing := f.pricing))
            && Matches(m, Everything.(stream := f.stream)) && Matches(m, Everything.(structured := f.structured))
            && Matches(m, Everything.(translation := f.translation))
            && Matches(m, Everything.(minContextTokens := f.minContextTokens))
            && Matches(m, Everything.(benchmarked := f.benchmarked))
  {
  }

  // ---------------------------------------------------------------- pages

  /** How offsets are printed as cursors and read back; None is ValueError("CURSOR_INVALID"). */
  datatype Codec = Codec(encode: nat -> string, decode: string -> Option<nat>)

  /** `_encode_cursor` and `_decode_cursor` */
  function CursorCodec(loads: string -> Option<Json>): Codec {
    Codec((offset: nat) => EncodeCursor(offset), cursor => DecodeCursor(loads, cursor))
  }

  ghost predicate RoundTrips(codec: Codec) {
    forall n: nat :: codec.encode(n) != "" && codec.decode(codec.encode(n)) == Some(n)
  }

  lemma CursorCodecRoundTrips(loads: string -> Option<Json>)
    ensures RoundTrips(CursorCodec(loads))
  {
    forall n: nat ensures EncodeCursor(n) != "" && DecodeCursor(loads, EncodeCursor(n)) == Some(n) {
      CursorRoundTrip(loads, n);
    }
  }

  datatype Page = Page(items: seq<Model>, next: Option<string>)

  function Start(codec: Codec, cursor: Option<string>): Option<nat> {
    if Given(cursor) then codec.decode(cursor.value) else Some(0)
  }

  /** `page_model_snapshots` */
  function PageOf(codec: Codec, models: seq<Model>, cursor: Option<string>, limit: int): Result<Page, CatalogError> {
    PageOfSorted(codec, SortBy(KeyLeq, models), cursor, limit)
  }

  function PageOfSorted(codec: Codec, sorted: seq<Model>, cursor: Option<string>, limit: int)
    : Result<Page, CatalogError>
  {
    if !(1 <= limit <= 100) then Err(LIMIT_OUT_OF_RANGE)
    else
      match Start(codec, cursor)
      case None => Err(CURSOR_INVALID)
      case Some(offset) => if offset > |sorted| then Err(CURSOR_INVALID) else Ok(PageFrom(codec, sorted, offset, limit))
  }

  function PageFrom(codec: Codec, sorted: seq<Model>, offset: nat, limit: nat): Page
    requires offset <= |sorted|
  {
    var end := if offset + limit < |sorted| then offset + limit else |sorted|;
    Page(sorted[offset..end], if offset + limit < |sorted| then Some(codec.encode(offset + limit)) else None)
  }

  lemma PageAt(codec: Codec, models: seq<Model>, cursor: Option<string>, limit: int)
    requires RoundTrips(codec) && 1 <= limit <= 100
    requires Start(codec, cursor).Some? && Start(codec, cursor).value <= |models|
    ensures PageOf(codec, models, cursor, limit).Ok?
    ensures IsPage(codec, SortBy(KeyLeq, models), Start(codec, cursor).value, limit,
                   PageOf(codec, models, cursor, limit).value)
  {
    PageOfSortedAt(codec, SortBy(KeyLeq, models), cursor, limit);
  }

  lemma PageOfSortedAt(codec: Codec, sorted: seq<Model>, cursor: Option<string>, limit: int)
    requires RoundTrips(codec) && 1 <= limit <= 100
    requires Start(codec, cursor).Some? && Start(codec, cursor).value <= |sorted|
    ensures PageOfSorted(codec, sorted, cursor, limit).Ok?
    ensures IsPage(codec, sorted, Start(codec, cursor).value, limit, PageOfSorted(codec, sorted, cursor, limit).value)
  {
    PageFromIsPage(codec, sorted, Start(codec, cursor).value, limit);
  }

  /** The two refusals: the limit is looked at first; a cursor must decode, to no more than there is. */
  lemma PageRefusedIff(codec: Codec, models: seq<Model>, cursor: Option<string>, limit: int)
    requires RoundTrips(codec)
    ensures PageOf(codec, models, cursor, limit) == Err(LIMIT_OUT_OF_RANGE) <==> limit < 1 || limit > 100
    ensures PageOf(codec, models, cursor, limit) == Err(CURSOR_INVALID) <==>
            && 1 <= limit <= 100 && cursor.Some? && cursor.value != ""
            && (codec.decode(cursor.value).None? || codec.decode(cursor.value).value > |models|)
  {
  }

  /** The next `limit` items behind `offset`, or all that are left, and a cursor that says where to go on. */
  predicate IsPage(codec: Codec, sorted: seq<Model>, offset: nat, limit: int, page: Page) {
    && offset + |page.items| <= |sorted|
    && page.items == sorted[offset..offset + |page.items|]
    && |page.items| <= limit
    && (if page.next.Some? then
          && |page.items| == limit && offset + limit < |sorted|
          && Start(codec, page.next) == Some(offset + limit)
        else offset + |page.items| == |sorted|)
  }

  lemma PageFromIsPage(codec: Codec, sorted: seq<Model>, offset: nat, limit: nat)
    requires RoundTrips(codec) && limit >= 1 && offset <= |sorted|
    ensures IsPage(codec, sorted, offset, limit, PageFrom(codec, sorted, offset, limit))
  {
    if offset + limit < |sorted| {
      assert codec.decode(codec.encode(offset + limit)) == Some(offset + limit);
    }
  }

  /**
   A client following next cursors, asking for limits(k) items on page number k; total
   because every cursor it is handed points further on.
   */
  function Walk(codec: Codec, models: seq<Model>, limits: nat -> int, cursor: Option<string>, k: nat): seq<seq<Model>>
    requires RoundTrips(codec) && forall i :: 1 <= limits(i) <= 100
    requires Start(codec, cursor).Some? && Start(codec, cursor).value <= |models|
    decreases |models| - Start(codec, cursor).value
  {
    PageAt(codec, models, cursor, limits(k));
    var page := PageOf(codec, models, cursor, limits(k)).value;
    if page.next.None? then [page.items]
    else [page.items] + Walk(codec, models, limits, page.next, k + 1)
  }

  /** Pages that hold these items in order, none longer than asked for. */
  ghost predicate Delivers(pages: seq<seq<Model>>, items: seq<Model>, limits: nat -> int, k: nat) {
    Flatten(pages) == items && forall i :: 0 <= i < |pages| ==> |pages[i]| <= limits(k + i)
  }

  lemma {:induction false} WalkFrom(codec: Codec, models: seq<Model>, limits: nat -> int, cursor: Option<string>,
                                    k: nat)
    requires RoundTrips(codec) && forall i :: 1 <= limits(i) <= 100
    requires Start(codec, cursor).Some? && Start(codec, cursor).value <= |models|
    ensures Delivers(Walk(codec, models, limits, cursor, k), SortBy(KeyLeq, models)[Start(codec, cursor).value..],
            limits, k)
    decreases |models| - Start(codec, cursor).value
  {
    PageAt(codec, models, cursor, limits(k));
    var page := PageOf(codec, models, cursor, limits(k)).value;
    var sorted, offset := SortBy(KeyLeq, models), Start(codec, cursor).value;
    if page.next.Some? {
      WalkFrom(codec, models, limits, page.next, k + 1);
      DeliversCons(page.items, Walk(codec, models, limits, page.next, k + 1), sorted, offset, limits, k);
    } else {
      DeliversOne(page.items, sorted, offset, limits, k);
    }
  }

  lemma DeliversOne(page: seq<Model>, sorted: seq<Model>, offset: nat, limits: nat -> int, k: nat)
    requires offset + |page| == |sorted| && page == sorted[offset..offset + |page|] && |page| <= limits(k)
    ensures Delivers([page], sorted[offset..], limits, k)
  {
    assert [page][..0] == [];
    assert [] + page == page;
  }

  lemma DeliversCons(page: seq<Model>, rest: seq<seq<Model>>, sorted: seq<Model>, offset: nat, limits: nat -> int,
                     k: nat)
    requires offset + |page| <= |sorted| && page == sorted[offset..offset + |page|] && |page| <= limits(k)
    requires Delivers(rest, sorted[offset + |page|..], limits, k + 1)
    ensures Delivers([page] + rest, sorted[offset..], limits, k)
  {
    var pages := [page] + rest;
    FlattenCons(page, rest);
    assert sorted[offset..] == page + sorted[offset + |page|..];
    forall i | 0 <= i < |pages| ensures |pages[i]| <= limits(k + i) {
      if i > 0 { assert pages[i] == rest[i - 1]; }
    }
  }

  /**
   Paging walk: from no cursor, with any limits between 1 and 100, the pages a client
   collects concatenate to exactly the sorted filtered list, none longer than asked for.
   */
  lemma PagingWalk(loads: string -> Option<Json>, models: seq<Model>, f: Filter, limits: nat -> int)
    requires forall i :: 1 <= limits(i) <= 100
    ensures RoundTrips(CursorCodec(loads))
    ensures var all := Filtered(models, f);
            Delivers(Walk(CursorCodec(loads), all, limits, None, 0), all, limits, 0)
  {
    var all := Filtered(models, f);
    KeyOrder();
    SortBySorts(KeyLeq, Select(models, f));
    SortBySorted(KeyLeq, all);
    CursorCodecRoundTrips(loads);
    WalkFrom(CursorCodec(loads), all, limits, None, 0);
  }

  // ---------------------------------------------------------------- the class of the source

  datatype Descriptor = Descriptor(providerId: string, models: seq<Model>, enabled: bool)

  method FilterModelSnapshots(models: seq<Model>, f: Filter) returns (r: seq<Model>)
    ensures r == Filtered(models, f)
  {
    var result: seq<Model> := [];
    for k := 0 to |models|
      invariant result == Select(models[..k], f)
    {
      var m := models[k];
      assert models[..k + 1][..k] == models[..k];
      if Given(f.providerId) && m.providerId != f.providerId.value { continue; }
      if Given(f.language) && f.language.value !in m.languages { continue; }
      if Given(f.region) && m.region != f.region { continue; }
      if f.pricing.Some? && m.pricing != f.pricing.value { continue; }
      if f.stream.Some? && m.stream != f.stream.value { continue; }
      if f.structured.Some? && m.structured != f.structured.value { continue; }
      if f.translation.Some? && m.translation != f.translation.value { continue; }
      if f.minContextTokens.Some? {
        if m.contextTokens.None? || m.contextTokens.value < f.minContextTokens.value { continue; }
      }
      if f.benchmarked == Some(true) && !Given(m.benchmarkRef) { continue; }
      if f.benchmarked == Some(false) && Given(m.benchmarkRef) { continue; }
      result := result + [m];
    }
    assert models[..|models|] == models;
    r := SortBy(KeyLeq, result);
  }

  /** The models of the enabled providers the filter asks for, in registration order. */
  function Listed(descriptors: seq<Descriptor>, f: Filter): seq<Model> {
    if descriptors == [] then []
    else
      var d := descriptors[|descriptors| - 1];
      Listed(descriptors[..|descriptors| - 1], f)
      + if !d.enabled || (Given(f.providerId) && d.providerId != f.providerId.value) then [] else d.models
  }

  /** Whether a provider is enabled, and the one the filter asks for, if it asks for one. */
  predicate IsListed(d: Descriptor, f: Filter) {
    d.enabled && (Given(f.providerId) ==> d.providerId == f.providerId.value)
  }

  lemma {:induction false} ListedHolds(descriptors: seq<Descriptor>, f: Filter, m: Model)
    ensures m in Listed(descriptors, f) <==>
            exists i :: 0 <= i < |descriptors| && IsListed(descriptors[i], f) && m in descriptors[i].models
  {
    if descriptors != [] {
      var n := |descriptors| - 1;
      var init := descriptors[..n];
      ListedHolds(init, f, m);
      if m in Listed(init, f) {
        var i :| 0 <= i < n && IsListed(init[i], f) && m in init[i].models;
        assert descriptors[i] == init[i];
      }
      if i :| 0 <= i < n && IsListed(descriptors[i], f) && m in descriptors[i].models {
        assert init[i] == descriptors[i];
      }
    }
  }

  /** What is listed: exactly the matching models of the enabled providers asked for. */
  lemma ListedIsExact(descriptors: seq<Descriptor>, f: Filter, m: Model)
    ensures m in Filtered(Listed(descriptors, f), f) <==>
            && Matches(m, f)
            && exists i :: 0 <= i < |descriptors| && IsListed(descriptors[i], f) && m in descriptors[i].models
  {
    ListedHolds(descriptors, f, m);
    FilteredIsExact(Listed(descriptors, f), f, m);
    assert m in Filtered(Listed(descriptors, f), f) <==> m in multiset(Filtered(Listed(descriptors, f), f));
    assert m in Listed(descriptors, f) <==> m in multiset(Listed(descriptors, f));
  }

  class ProviderCatalog {
    var descriptors: seq<Descriptor>

    ghost predicate Valid()
      reads this
    {
      forall i, j :: 0 <= i < j < |descriptors| ==> descriptors[i].providerId != descriptors[j].providerId
    }

    constructor ()
      ensures Valid() && descriptors == []
    {
      descriptors := [];
    }

    method Register(d: Descriptor) returns (error: Option<CatalogError>)
      requires Valid()
      modifies this
      ensures Valid()
      ensures if exists i :: 0 <= i < |old(descriptors)| && old(descriptors)[i].providerId == d.providerId
              then error == Some(PROVIDER_ALREADY_REGISTERED) && descriptors == old(descriptors)
              else error == None && descriptors == old(descriptors) + [d]
    {
      if exists i :: 0 <= i < |descriptors| && descriptors[i].providerId == d.providerId {
        return Some(PROVIDER_ALREADY_REGISTERED);
      }
      descriptors := descriptors + [d];
      return None;
    }

    method ListModels(f: Filter) returns (r: seq<Model>)
      ensures r == Filtered(Listed(descriptors, f), f)
    {
      var candidates: seq<Model> := [];
      for k := 0 to |descriptors|
        invariant candidates == Listed(descriptors[..k], f)
      {
        var d := descriptors[k];
        assert descriptors[..k + 1][..k] == descriptors[..k];
        if !d.enabled || (Given(f.providerId) && d.providerId != f.providerId.value) {
          continue;
        }
        candidates := candidates + d.models;
      }
      assert descriptors[..|descriptors|] == descriptors;
      r := FilterModelSnapshots(candidates, f);
    }

    method PageModels(loads: string -> Option<Json>, f: Filter, cursor: Option<string>, limit: int)
      returns (r: Result<Page, CatalogError>)
      ensures r == PageOf(CursorCodec(loads), Filtered(Listed(descriptors, f), f), cursor, limit)
    {
      if !(1 <= limit <= 100) {
        return Err(LIMIT_OUT_OF_RANGE);
      }
      var models := ListModels(f);
      r := PageOf(CursorCodec(loads), models, cursor, limit);
    }
  }
}
