/**
 * The tags page: what it reads from the URL's search parameters, the query
 * key its data request is cached under, the URL that request fetches, and
 * what submitting the filter form writes back into the parameters.
 *
 * `Number(...)` on the `page` value is not modelled: the page is either the
 * default `1` or "the number the text `t` denotes", and the URL writes that
 * number through a parameter `numberText` standing for `String(Number(t))`.
 * The debounced filter value comes from a timer and is an input here.
 */
module TagsApp {
  import opened Wrappers
  import opened SearchParams
  import opened QueryString

  const PageName := "page"
  const FilterName := "filter"
  const PerPageName := "per_page"
  const DefaultPerPage := "10"
  const TagsQueryName := "get-tags"
  const TagsEndpoint := "http://localhost:3333/tags"

  /** The page number: the default `1`, or `Number(text)` of a non-empty text. */
  datatype PageParam = DefaultPage | NumberOf(text: string)

  /** `page`: a missing or empty value gives 1; any other text goes to `Number`. */
  function PageParamOf(e: Entries): (p: PageParam)
    ensures p.DefaultPage? <==> Lookup(e, PageName) in {None, Some("")}
    ensures p.NumberOf? ==> Lookup(e, PageName) == Some(p.text)
  {
    match Lookup(e, PageName)
    case Some(v) => if v != "" then NumberOf(v) else DefaultPage
    case None => DefaultPage
  }

  /** `filter`: the value when present, even empty; `""` when absent. */
  function FilterParamOf(e: Entries): (f: string)
    ensures Lookup(e, FilterName).Some? ==> f == Lookup(e, FilterName).value
    ensures Lookup(e, FilterName).None? ==> f == ""
  {
    Lookup(e, FilterName).GetOr("")
  }

  /** `per_page`: the value when present, even empty; `"10"` when absent. */
  function PerPageParamOf(e: Entries): (n: string)
    ensures Lookup(e, PerPageName).Some? ==> n == Lookup(e, PerPageName).value
    ensures Lookup(e, PerPageName).None? ==> n == DefaultPerPage
  {
    Lookup(e, PerPageName).GetOr(DefaultPerPage)
  }

  /** The cache key of the tags request. */
  datatype QueryKey = QueryKey(name: string, page: PageParam, filter: string, perPage: string)

  function QueryKeyOf(e: Entries): QueryKey
  {
    QueryKey(TagsQueryName, PageParamOf(e), FilterParamOf(e), PerPageParamOf(e))
  }

  /** The parameter update `onFilter` applies: `page` to `"1"`, then `filter`. */
  function FilterUpdate(e: Entries, debounced: string): Entries
  {
    Update(Update(e, PageName, "1"), FilterName, debounced)
  }

  /** The entries under names other than `page` and `filter`, in order. */
  function Others(e: Entries): Entries
  {
    Without(Without(e, PageName), FilterName)
  }

  /** A present but empty `page` falls back to 1, while a present but empty
      `filter` or `per_page` is used as it is. */
  lemma EmptyValues(e: Entries)
    ensures PageParamOf(Update(e, PageName, "")) == DefaultPage
    ensures FilterParamOf(Update(e, FilterName, "")) == ""
    ensures PerPageParamOf(Update(e, PerPageName, "")) == ""
  {
    UpdateLookup(e, PageName, "");
    UpdateLookup(e, FilterName, "");
    UpdateLookup(e, PerPageName, "");
  }

  /** Any non-empty `page` text, numeric or not, goes to `Number`. */
  lemma PageTextIsKept(e: Entries, t: string)
    requires t != ""
    ensures PageParamOf(Update(e, PageName, t)) == NumberOf(t)
  {
    UpdateLookup(e, PageName, t);
  }

  /** After `onFilter`, `page` is `"1"` whatever it was. */
  lemma OnFilterResetsPage(e: Entries, debounced: string)
    ensures Lookup(FilterUpdate(e, debounced), PageName) == Some("1")
    ensures PageParamOf(FilterUpdate(e, debounced)) == NumberOf("1")
  {
    UpdateLookup(e, PageName, "1");
    UpdateLookupOther(Update(e, PageName, "1"), FilterName, debounced, PageName);
  }

  /** After `onFilter`, `filter` is the debounced value. */
  lemma OnFilterSetsFilter(e: Entries, debounced: string)
    ensures Lookup(FilterUpdate(e, debounced), FilterName) == Some(debounced)
    ensures FilterParamOf(FilterUpdate(e, debounced)) == debounced
  {
    UpdateLookup(Update(e, PageName, "1"), FilterName, debounced);
  }

  /** `onFilter` keeps one entry each for `page` and `filter`. */
  lemma OnFilterSingleEntries(e: Entries, debounced: string)
    ensures Count(FilterUpdate(e, debounced), PageName) == 1
    ensures Count(FilterUpdate(e, debounced), FilterName) == 1
  {
    UpdateCount(e, PageName, "1");
    UpdateCountOther(Update(e, PageName, "1"), FilterName, debounced, PageName);
    UpdateCount(Update(e, PageName, "1"), FilterName, debounced);
  }

  /** `onFilter` leaves every other entry as it was, in its order, and so
      every other name reads as before; `per_page` in particular. */
  lemma OnFilterFrame(e: Entries, debounced: string)
    ensures Others(FilterUpdate(e, debounced)) == Others(e)
    ensures forall name :: name != PageName && name != FilterName ==>
      Lookup(FilterUpdate(e, debounced), name) == Lookup(e, name)
    ensures PerPageParamOf(FilterUpdate(e, debounced)) == PerPageParamOf(e)
  {
    var u1 := Update(e, PageName, "1");
    var u2 := Update(u1, FilterName, debounced);
    WithoutCommutes(u2, PageName, FilterName);
    UpdateFrame(u1, FilterName, debounced);
    WithoutCommutes(u1, PageName, FilterName);
    UpdateFrame(e, PageName, "1");
    forall name | name != PageName && name != FilterName
      ensures Lookup(u2, name) == Lookup(e, name)
    {
      UpdateLookupOther(e, PageName, "1", name);
      UpdateLookupOther(u1, FilterName, debounced, name);
    }
    assert Lookup(u2, PerPageName) == Lookup(e, PerPageName);
  }

  /** Submitting the filter form twice with the same debounced value leaves
      the parameters as one submission does. */
  lemma OnFilterIdempotent(e: Entries, debounced: string)
    ensures FilterUpdate(FilterUpdate(e, debounced), debounced) == FilterUpdate(e, debounced)
  {
    var u := FilterUpdate(e, debounced);
    OnFilterSingleEntries(e, debounced);
    OnFilterResetsPage(e, debounced);
    OnFilterSetsFilter(e, debounced);
    UpdateUnchanged(u, PageName, "1");
    UpdateUnchanged(u, FilterName, debounced);
  }

  /** After `onFilter` the query key asks for page 1 of the debounced filter
      with the same page size. */
  lemma OnFilterQueryKey(e: Entries, debounced: string)
    ensures QueryKeyOf(FilterUpdate(e, debounced))
         == QueryKey(TagsQueryName, NumberOf("1"), debounced, PerPageParamOf(e))
  {
    OnFilterResetsPage(e, debounced);
    OnFilterSetsFilter(e, debounced);
    OnFilterFrame(e, debounced);
  }

  /** A character `String(...)` of a JavaScript number can hold: digits, the
      point, the exponent `e` and its sign, and the letters of `NaN` and
      `Infinity`. */
  predicate IsNumberChar(c: char)
  {
    ('0' <= c <= '9') || c in ".+-eNaIfinty"
  }

  /** What the model relies on of `String(Number(t))`: it writes a number. */
  ghost predicate IsNumberText(numberText: string -> string)
  {
    forall t, i :: 0 <= i < |numberText(t)| ==> IsNumberChar(numberText(t)[i])
  }

  /** The text a page number is written as in the URL: `1` for the default
      page, and a written number otherwise. */
  function PageText(p: PageParam, numberText: string -> string): (r: string)
    ensures p.DefaultPage? ==> r == "1"
    ensures IsNumberText(numberText) ==> forall i :: 0 <= i < |r| ==> IsNumberChar(r[i])
  {
    match p
    case DefaultPage => "1"
    case NumberOf(t) => numberText(t)
  }

  /** The query string of the tags request. */
  function TagsQuery(page: string, perPage: string, title: string): string
  {
    EncodePair("_page", page) + "&" + EncodePair("_per_page", perPage) + "&" + EncodePair("title", title)
  }

  /** The URL the tags request fetches for the query key `k`: the three values
      are written in as they are, with no escaping. */
  function RequestUrl(k: QueryKey, numberText: string -> string): string
  {
    TagsEndpoint + "?" + TagsQuery(PageText(k.page, numberText), k.perPage, k.filter)
  }

  /** When none of the three values contains `&`, reading the query string
      back gives exactly the three entries, in order. */
  lemma TagsQueryRoundTrip(page: string, perPage: string, title: string)
    requires '&' !in page && '&' !in perPage && '&' !in title
    ensures Parse(TagsQuery(page, perPage, title))
         == [("_page", page), ("_per_page", perPage), ("title", title)]
  {
    var a, b, c := EncodePair("_page", page), EncodePair("_per_page", perPage), EncodePair("title", title);
    ParseConcat(a + "&" + b, c);
    ParseConcat(a, b);
    ParseEncodePair("_page", page);
    ParseEncodePair("_per_page", perPage);
    ParseEncodePair("title", title);
  }

  /** The request URL is the tags endpoint with a query string that reads
      back as the query key's page text, page size and filter. */
  lemma RequestUrlCarriesKey(k: QueryKey, numberText: string -> string)
    requires IsNumberText(numberText) && '&' !in k.perPage && '&' !in k.filter
    ensures exists q :: (RequestUrl(k, numberText) == TagsEndpoint + "?" + q
      && Parse(q) == [("_page", PageText(k.page, numberText)), ("_per_page", k.perPage), ("title", k.filter)])
  {
    var q := TagsQuery(PageText(k.page, numberText), k.perPage, k.filter);
    assert !IsNumberChar('&');
    TagsQueryRoundTrip(PageText(k.page, numberText), k.perPage, k.filter);
    assert RequestUrl(k, numberText) == TagsEndpoint + "?" + q;
  }

  /** A filter containing `&` is not escaped: with the filter `a&b`, the
      request's `title` is only `a`, and `b` reads as an entry of its own. */
  lemma AmpersandInFilter(page: string, perPage: string, before: string, after: string)
    requires '&' !in page && '&' !in perPage && '&' !in before
    requires after != [] && '&' !in after && '=' !in after
    ensures Parse(TagsQuery(page, perPage, before + "&" + after))
         == [("_page", page), ("_per_page", perPage), ("title", before), (after, "")]
  {
    var a, b, c := EncodePair("_page", page), EncodePair("_per_page", perPage), EncodePair("title", before);
    assert EncodePair("title", before + "&" + after) == c + "&" + after;
    ParseConcat(a + "&" + b, c + "&" + after);
    ParseConcat(a, b);
    ParseConcat(c, after);
    ParseEncodePair("_page", page);
    ParseEncodePair("_per_page", perPage);
    ParseEncodePair("title", before);
    ParseName(after);
  }

  /** The tags page component: the router's search parameters, which
      `onFilter` changes in place, and the filter input's local state. */
  class TagsPage {
    const searchParams: Params
    var filter: string

    /** The first render: the filter input starts from the URL's `filter`. */
    constructor(params: Params)
      ensures searchParams == params
      ensures filter == FilterParamOf(params.entries)
    {
      searchParams := params;
      filter := FilterParamOf(params.entries);
    }

    function Key(): QueryKey
      reads searchParams
    {
      QueryKeyOf(searchParams.entries)
    }

    /** The render's three reads of the search parameters. A `page` text
        that is missing or empty is falsy and gives 1. */
    method ReadParams() returns (pageParam: PageParam, filterParam: string, perPageParam: string)
      ensures pageParam == PageParamOf(searchParams.entries)
      ensures filterParam == FilterParamOf(searchParams.entries)
      ensures perPageParam == PerPageParamOf(searchParams.entries)
      ensures QueryKey(TagsQueryName, pageParam, filterParam, perPageParam) == Key()
    {
      var page := searchParams.Get(PageName);
      pageParam := if page.Some? && page.value != "" then NumberOf(page.value) else DefaultPage;
      var filterValue := searchParams.Get(FilterName);
      filterParam := filterValue.GetOr("");
      var perPage := searchParams.Get(PerPageName);
      perPageParam := perPage.GetOr(DefaultPerPage);
    }

    /** Typing in the filter input changes only the local state, never the
        query key. */
    method SetFilter(value: string)
      modifies this
      ensures filter == value
      ensures Key() == old(Key())
    {
      filter := value;
    }

    /** Submitting the filter form with the current debounced value. */
    method OnFilter(debounced: string)
      modifies searchParams
      ensures searchParams.entries == FilterUpdate(old(searchParams.entries), debounced)
      ensures Others(searchParams.entries) == Others(old(searchParams.entries))
      ensures Key() == QueryKey(TagsQueryName, NumberOf("1"), debounced, old(PerPageParamOf(searchParams.entries)))
    {
      ghost var before := searchParams.entries;
      searchParams.Set(PageName, "1");
      searchParams.Set(FilterName, debounced);
      OnFilterFrame(before, debounced);
      OnFilterQueryKey(before, debounced);
    }
  }
}
