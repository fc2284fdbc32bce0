/** The module-search filter store (`modulesSearchStore`): a search query
    and eight boolean filters, read from the page's URL parameters when the
    store is created and written back to them by the sync effect. */
module ModulesSearchStore {
  import opened Wrappers

  /** A parameter value: the query is text, the filters are flags. */
  datatype UrlValue = Text(text: string) | Flag(flag: bool)

  /** The page's URL parameters, as the `urlParams` helper keeps them. */
  class UrlParams {
    var entries: map<string, UrlValue>

    constructor (initial: map<string, UrlValue>)
      ensures entries == initial
    {
      entries := initial;
    }

    function Get(key: string): (r: Option<UrlValue>)
      reads this
      ensures r.Some? <==> key in entries
      ensures r.Some? ==> r.value == entries[key]
    {
      if key in entries then Some(entries[key]) else None
    }

    method Set(key: string, value: UrlValue)
      modifies this
      ensures entries == old(entries)[key := value]
    {
      entries := entries[key := value];
    }
  }

  datatype Filters = Filters(
    onlyMandatoryOrCompulsoryElective: bool,
    onlyAlternativeAssessment: bool,
    onlyEarlyAssessment: bool,
    onlyPassed: bool,
    onlyFailed: bool,
    onlyMyStudies: bool,
    onlyMySemester: bool,
    onlyNotTaken: bool)

  /** The eight filters, each named by the URL parameter it is kept under. */
  datatype Filter = Mandatory | AlternativeOnly | EarlyOnly | Passed | Failed | MyStudies | MySemester | NotTaken

  const NoFilters := Filters(false, false, false, false, false, false, false, false)

  function FilterValue(f: Filters, k: Filter): bool
  {
    match k
    case Mandatory => f.onlyMandatoryOrCompulsoryElective
    case AlternativeOnly => f.onlyAlternativeAssessment
    case EarlyOnly => f.onlyEarlyAssessment
    case Passed => f.onlyPassed
    case Failed => f.onlyFailed
    case MyStudies => f.onlyMyStudies
    case MySemester => f.onlyMySemester
    case NotTaken => f.onlyNotTaken
  }

  /** `{ ...prev.filters, [k]: value }`: the filter `k` takes `value`, the
      other seven keep theirs. */
  function WithFilter(f: Filters, k: Filter, value: bool): (r: Filters)
    ensures FilterValue(r, k) == value
    ensures forall k' :: k' != k ==> FilterValue(r, k') == FilterValue(f, k')
  {
    match k
    case Mandatory => f.(onlyMandatoryOrCompulsoryElective := value)
    case AlternativeOnly => f.(onlyAlternativeAssessment := value)
    case EarlyOnly => f.(onlyEarlyAssessment := value)
    case Passed => f.(onlyPassed := value)
    case Failed => f.(onlyFailed := value)
    case MyStudies => f.(onlyMyStudies := value)
    case MySemester => f.(onlyMySemester := value)
    case NotTaken => f.(onlyNotTaken := value)
  }

  /** Two filter records agree when every filter does. */
  lemma FiltersExtensional(f: Filters, g: Filters)
    requires forall k :: FilterValue(f, k) == FilterValue(g, k)
    ensures f == g
  {
    assert FilterValue(f, Mandatory) == FilterValue(g, Mandatory);
    assert FilterValue(f, AlternativeOnly) == FilterValue(g, AlternativeOnly);
    assert FilterValue(f, EarlyOnly) == FilterValue(g, EarlyOnly);
    assert FilterValue(f, Passed) == FilterValue(g, Passed);
    assert FilterValue(f, Failed) == FilterValue(g, Failed);
    assert FilterValue(f, MyStudies) == FilterValue(g, MyStudies);
    assert FilterValue(f, MySemester) == FilterValue(g, MySemester);
    assert FilterValue(f, NotTaken) == FilterValue(g, NotTaken);
  }

  lemma NoFiltersAllOff(k: Filter)
    ensures !FilterValue(NoFilters, k)
  {
  }

  /** The parameter key each filter is read from and written to. */
  function UrlKey(k: Filter): string
  {
    match k
    case Mandatory => "mandatory"
    case AlternativeOnly => "alternative"
    case EarlyOnly => "early"
    case Passed => "passed"
    case Failed => "failed"
    case MyStudies => "my-studies"
    case MySemester => "my-semester"
    case NotTaken => "not-taken"
  }

  const QueryKey: string := "q"

  /** The nine keys the store reads and writes. */
  const ParamKeys: set<string> := {"q", "mandatory", "alternative", "early", "passed", "failed", "my-studies", "my-semester", "not-taken"}

  /** Every filter has its own key, and none of them is the query's. */
  lemma UrlKeysDistinct(j: Filter, k: Filter)
    ensures UrlKey(j) == UrlKey(k) ==> j == k
    ensures UrlKey(k) != QueryKey
  {
  }

  /** `urlParams.get("q") ?? ""`. An entry that is not text reads as absent. */
  function QueryParam(entries: map<string, UrlValue>): string
  {
    if QueryKey in entries && entries[QueryKey].Text? then entries[QueryKey].text else ""
  }

  /** `urlParams.get(key)` for a filter. An absent entry, or one that is not
      a flag, reads as `false`. */
  function FlagParam(entries: map<string, UrlValue>, k: Filter): bool
  {
    UrlKey(k) in entries && entries[UrlKey(k)] == Flag(true)
  }

  function FiltersFromParams(entries: map<string, UrlValue>): (f: Filters)
    ensures forall k :: FilterValue(f, k) == FlagParam(entries, k)
  {
    Filters(FlagParam(entries, Mandatory), FlagParam(entries, AlternativeOnly), FlagParam(entries, EarlyOnly),
            FlagParam(entries, Passed), FlagParam(entries, Failed), FlagParam(entries, MyStudies),
            FlagParam(entries, MySemester), FlagParam(entries, NotTaken))
  }

  /** The parameters after the sync effect has written the query and the
      eight filters over `entries`, one key after the other. */
  function SyncedParams(entries: map<string, UrlValue>, searchQuery: string, f: Filters): map<string, UrlValue>
  {
    entries[QueryKey := Text(searchQuery)]
           ["mandatory" := Flag(f.onlyMandatoryOrCompulsoryElective)]
           ["alternative" := Flag(f.onlyAlternativeAssessment)]
           ["early" := Flag(f.onlyEarlyAssessment)]
           ["passed" := Flag(f.onlyPassed)]
           ["failed" := Flag(f.onlyFailed)]
           ["my-studies" := Flag(f.onlyMyStudies)]
           ["my-semester" := Flag(f.onlyMySemester)]
           ["not-taken" := Flag(f.onlyNotTaken)]
  }

  /** The sync effect adds exactly the nine keys of the store, and leaves
      every other parameter alone. */
  lemma SyncedParamsKeys(entries: map<string, UrlValue>, searchQuery: string, f: Filters)
    ensures forall key :: key in SyncedParams(entries, searchQuery, f) <==> key in entries || key in ParamKeys
  {
  }

  lemma SyncedParamsKeepsOthers(entries: map<string, UrlValue>, searchQuery: string, f: Filters)
    ensures forall key :: key in entries && key !in ParamKeys ==> SyncedParams(entries, searchQuery, f)[key] == entries[key]
  {
  }

  /** The sync effect writes the query under `q` and each filter under the
      key it is read from. */
  lemma SyncedParamsValues(entries: map<string, UrlValue>, searchQuery: string, f: Filters, k: Filter)
    ensures SyncedParams(entries, searchQuery, f)[QueryKey] == Text(searchQuery)
    ensures SyncedParams(entries, searchQuery, f)[UrlKey(k)] == Flag(FilterValue(f, k))
  {
    match k
    case Mandatory =>
    case AlternativeOnly =>
    case EarlyOnly =>
    case Passed =>
    case Failed =>
    case MyStudies =>
    case MySemester =>
    case NotTaken =>
  }

  /** Parameters holding the query under `q` and each filter under its key
      are read back as that query and those filters. */
  lemma ReadBack(m: map<string, UrlValue>, searchQuery: string, f: Filters)
    requires QueryKey in m && m[QueryKey] == Text(searchQuery)
    requires forall k :: UrlKey(k) in m && m[UrlKey(k)] == Flag(FilterValue(f, k))
    ensures QueryParam(m) == searchQuery
    ensures FiltersFromParams(m) == f
  {
    FiltersExtensional(FiltersFromParams(m), f);
  }

  /** Creating a store from the parameters the sync effect wrote, over any
      earlier parameters, gives back the same query and filters. */
  lemma ParamsRoundTrip(entries: map<string, UrlValue>, searchQuery: string, f: Filters)
    ensures QueryParam(SyncedParams(entries, searchQuery, f)) == searchQuery
    ensures FiltersFromParams(SyncedParams(entries, searchQuery, f)) == f
  {
    var m := SyncedParams(entries, searchQuery, f);
    SyncedParamsKeys(entries, searchQuery, f);
    SyncedParamsValues(entries, searchQuery, f, Mandatory);
    forall k: Filter
      ensures UrlKey(k) in m && m[UrlKey(k)] == Flag(FilterValue(f, k))
    {
      SyncedParamsValues(entries, searchQuery, f, k);
    }
    ReadBack(m, searchQuery, f);
  }

  class ModulesSearchStore {
    var searchQuery: string
    var filters: Filters

    /** The store as it is created: query and filters read from `params`. */
    constructor (params: UrlParams)
      ensures searchQuery == QueryParam(params.entries)
      ensures filters == FiltersFromParams(params.entries)
    {
      var q := params.Get(QueryKey);
      searchQuery := if q.Some? && q.value.Text? then q.value.text else "";
      filters := FiltersFromParams(params.entries);
    }

    method SetSearchQuery(query: string)
      modifies this
      ensures searchQuery == query && filters == old(filters)
    {
      searchQuery := query;
    }

    method SetOnlyMandaryOrCompulsoryElective(value: bool)
      modifies this
      ensures filters == WithFilter(old(filters), Mandatory, value) && searchQuery == old(searchQuery)
    {
      filters := filters.(onlyMandatoryOrCompulsoryElective := value);
    }

    method SetOnlyAlternativeAssessment(value: bool)
      modifies this
      ensures filters == WithFilter(old(filters), AlternativeOnly, value) && searchQuery == old(searchQuery)
    {
      filters := filters.(onlyAlternativeAssessment := value);
    }

    method SetOnlyEarlyAssessment(value: bool)
      modifies this
      ensures filters == WithFilter(old(filters), EarlyOnly, value) && searchQuery == old(searchQuery)
    {
      filters := filters.(onlyEarlyAssessment := value);
    }

    method SetOnlyPassed(value: bool)
      modifies this
      ensures filters == WithFilter(old(filters), Passed, value) && searchQuery == old(searchQuery)
    {
      filters := filters.(onlyPassed := value);
    }

    method SetOnlyFailed(value: bool)
      modifies this
      ensures filters == WithFilter(old(filters), Failed, value) && searchQuery == old(searchQuery)
    {
      filters := filters.(onlyFailed := value);
    }

    method SetOnlyMyStudies(value: bool)
      modifies this
      ensures filters == WithFilter(old(filters), MyStudies, value) && searchQuery == old(searchQuery)
    {
      filters := filters.(onlyMyStudies := value);
    }

    method SetOnlyMySemester(value: bool)
      modifies this
      ensures filters == WithFilter(old(filters), MySemester, value) && searchQuery == old(searchQuery)
    {
      filters := filters.(onlyMySemester := value);
    }

    method SetOnlyNotTaken(value: bool)
      modifies this
      ensures filters == WithFilter(old(filters), NotTaken, value) && searchQuery == old(searchQuery)
    {
      filters := filters.(onlyNotTaken := value);
    }

    /** Turns every filter off and keeps the query; doing it twice is doing it once. */
    method ClearFilters()
      modifies this
      ensures filters == NoFilters && searchQuery == old(searchQuery)
      ensures forall k :: !FilterValue(filters, k)
    {
      filters := Filters(false, false, false, false, false, false, false, false);
    }

    /** The sync effect: writes the query and the eight filters, each under
        the key it is read from. */
    method SyncToUrl(params: UrlParams)
      modifies params
      ensures params.entries == SyncedParams(old(params.entries), searchQuery, filters)
    {
      params.Set(QueryKey, Text(searchQuery));
      params.Set("mandatory", Flag(filters.onlyMandatoryOrCompulsoryElective));
      params.Set("alternative", Flag(filters.onlyAlternativeAssessment));
      params.Set("early", Flag(filters.onlyEarlyAssessment));
      params.Set("passed", Flag(filters.onlyPassed));
      params.Set("failed", Flag(filters.onlyFailed));
      params.Set("my-studies", Flag(filters.onlyMyStudies));
      params.Set("my-semester", Flag(filters.onlyMySemester));
      params.Set("not-taken", Flag(filters.onlyNotTaken));
    }
  }

  /** Syncing a store to the URL and creating a new store from the URL
      reproduces the first store's query and filters. */
  method SyncThenReload(store: ModulesSearchStore, params: UrlParams) returns (reloaded: ModulesSearchStore)
    modifies params
    ensures reloaded.searchQuery == store.searchQuery && reloaded.filters == store.filters
  {
    store.SyncToUrl(params);
    reloaded := new ModulesSearchStore(params);
    ParamsRoundTrip(old(params.entries), store.searchQuery, store.filters);
  }
}
