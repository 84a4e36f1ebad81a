/**
 * The search page: the guard on the query, the request URL, and the cards
 * built from the catalogue's answer. The request itself is not modelled;
 * its result arrives as a `Response`.
 */
module Search {
  import opened Wrappers
  import opened Books
  import opened Cards
  import opened Store
  import Text
  import UriCodec

  /** The volumes endpoint with the start of its `q` parameter. */
  const QueryPrefix := "https://www.googleapis.com/books/v1/volumes?q="
  const OrderByKey := "&orderBy="
  const FilterKey := "&filter="
  const EmptyQueryMessage := "Please enter a search term."
  const NoBooksMessage := "No books found."
  const FetchErrorMessage := "Error fetching books."

  /** What `searchBooks` does with its inputs before anything is fetched. */
  datatype SearchStart =
    /** the query is empty: return at once */
    | Ignored
    /** the query is only whitespace: show a message, request nothing */
    | Blank(message: string)
    /** request this URL */
    | Requested(url: string)

  /** `key` (such as `&orderBy=`) and the value when the value is non-empty, nothing otherwise; the value is not encoded. */
  function OptionalParam(key: string, value: string): string {
    if value != "" then key + value else ""
  }

  /** The request URL for a query, a sort order and a filter. */
  function SearchUrl(query: string, sort: string, filter: string): string {
    QueryPrefix + UriCodec.Encode(query) + OptionalParam(OrderByKey, sort) + OptionalParam(FilterKey, filter)
  }

  /**
   * What `searchBooks` must do with these inputs: nothing for an empty query,
   * the message for a whitespace-only one, and otherwise a request for `SearchUrl`.
   */
  ghost predicate StartOf(query: string, sort: string, filter: string, start: SearchStart) {
    && (start.Ignored? <==> query == "")
    && (start.Blank? <==> query != "" && Text.AllTrimmable(query))
    && (start.Blank? ==> start.message == EmptyQueryMessage)
    && (start.Requested? ==> start.url == SearchUrl(query, sort, filter))
  }

  /**
   * The guard and URL builder of `searchBooks`. A missing input element reads
   * as the empty string, which the source treats the same way.
   */
  method StartSearch(query: string, sort: string, filter: string) returns (start: SearchStart)
    ensures StartOf(query, sort, filter, start)
  {
    if query == "" {
      return Ignored;
    }
    Text.TrimEmptyIffBlank(query);
    if Text.Trim(query) == "" {
      return Blank(EmptyQueryMessage);
    }
    var url := QueryPrefix + UriCodec.Encode(query);
    if sort != "" {
      url := url + (OrderByKey + sort);
    }
    if filter != "" {
      url := url + (FilterKey + filter);
    }
    return Requested(url);
  }

  /** The parameters a request URL carries. */
  datatype SearchParams = SearchParams(query: string, sort: string, filter: string)

  /** Length of the longest prefix of `s` without an `&`. */
  function UntilAmp(s: string): (n: nat)
    ensures n <= |s|
    ensures forall i :: 0 <= i < n ==> s[i] != '&'
    ensures n < |s| ==> s[n] == '&'
  {
    if s == [] || s[0] == '&' then 0 else 1 + UntilAmp(s[1..])
  }

  predicate HasPrefix(s: string, p: string) {
    |p| <= |s| && s[..|p|] == p
  }

  /** Reads `key` and its value from the front of `s`, if there: the value (up to the next `&`) and the rest. */
  function TakeParam(s: string, key: string): (string, string) {
    if HasPrefix(s, key) then
      var rest := s[|key|..];
      var n := UntilAmp(rest);
      (rest[..n], rest[n..])
    else ("", s)
  }

  /** Reads the optional `&orderBy=` and `&filter=` parameters, in that order, and nothing after them. */
  function ParseOptions(s: string): Option<(string, string)> {
    var (sort, afterSort) := TakeParam(s, OrderByKey);
    var (filter, afterFilter) := TakeParam(afterSort, FilterKey);
    if afterFilter == "" then Some((sort, filter)) else None
  }

  /** Reads what follows `q=`: the encoded query up to the first `&`, then the options. */
  function ParseQuery(rest: string): Option<SearchParams> {
    var n := UntilAmp(rest);
    match UriCodec.Decode(rest[..n])
    case None => None
    case Some(query) =>
      match ParseOptions(rest[n..])
      case None => None
      case Some((sort, filter)) => Some(SearchParams(query, sort, filter))
  }

  /** Reads a request URL back into the query, sort order and filter it was built from. */
  function ParseSearchUrl(url: string): Option<SearchParams> {
    if HasPrefix(url, QueryPrefix) then ParseQuery(url[|QueryPrefix|..]) else None
  }

  lemma {:induction false} UntilAmpOfConcat(a: string, b: string)
    requires forall i :: 0 <= i < |a| ==> a[i] != '&'
    requires b == [] || b[0] == '&'
    ensures UntilAmp(a + b) == |a|
  {
    if a != [] {
      assert (a + b)[1..] == a[1..] + b;
      UntilAmpOfConcat(a[1..], b);
    }
  }

  lemma TakeOptionalParam(key: string, value: string, tail: string)
    requires '&' !in value
    requires tail == [] || tail[0] == '&'
    requires !HasPrefix(tail, key)
    ensures TakeParam(OptionalParam(key, value) + tail, key) == (value, tail)
  {
    var s := OptionalParam(key, value) + tail;
    if value != "" {
      assert s == key + (value + tail);
      assert s[..|key|] == key;
      assert s[|key|..] == value + tail;
      UntilAmpOfConcat(value, tail);
      assert (value + tail)[..|value|] == value;
      assert (value + tail)[|value|..] == tail;
    }
  }

  lemma ParseOptionsOfParams(sort: string, filter: string)
    requires '&' !in sort && '&' !in filter
    ensures ParseOptions(OptionalParam(OrderByKey, sort) + OptionalParam(FilterKey, filter)) == Some((sort, filter))
  {
    var filterPart := OptionalParam(FilterKey, filter);
    if filter != "" {
      assert filterPart[1] == 'f' != 'o' == OrderByKey[1];
      assert |filterPart| >= |OrderByKey| ==> filterPart[..|OrderByKey|][1] != OrderByKey[1];
    }
    TakeOptionalParam(OrderByKey, sort, filterPart);
    assert filterPart == filterPart + "";
    TakeOptionalParam(FilterKey, filter, "");
  }

  lemma ParseQueryOfParts(query: string, sort: string, filter: string)
    requires '&' !in sort && '&' !in filter
    ensures ParseQuery(UriCodec.Encode(query) + OptionalParam(OrderByKey, sort) + OptionalParam(FilterKey, filter))
            == Some(SearchParams(query, sort, filter))
  {
    var enc := UriCodec.Encode(query);
    var params := OptionalParam(OrderByKey, sort) + OptionalParam(FilterKey, filter);
    var rest := enc + OptionalParam(OrderByKey, sort) + OptionalParam(FilterKey, filter);
    assert rest == enc + params;
    assert forall i :: 0 <= i < |enc| ==> enc[i] != '&';
    UntilAmpOfConcat(enc, params);
    assert rest[..|enc|] == enc;
    assert rest[|enc|..] == params;
    UriCodec.DecodeEncode(query);
    ParseOptionsOfParams(sort, filter);
  }

  /**
   * The URL names the query, the sort order and the filter it was built from,
   * provided the two unencoded option values hold no `&`.
   */
  lemma ParseSearchUrlOfSearchUrl(query: string, sort: string, filter: string)
    requires '&' !in sort && '&' !in filter
    ensures ParseSearchUrl(SearchUrl(query, sort, filter)) == Some(SearchParams(query, sort, filter))
  {
    var rest := UriCodec.Encode(query) + OptionalParam(OrderByKey, sort) + OptionalParam(FilterKey, filter);
    var url := SearchUrl(query, sort, filter);
    assert url == QueryPrefix + rest;
    assert url[..|QueryPrefix|] == QueryPrefix;
    assert url[|QueryPrefix|..] == rest;
    ParseQueryOfParts(query, sort, filter);
  }

  /** What the fetch produced: a failure (network or parse), or a body whose `items` may be missing. */
  datatype Response = FetchFailed | Body(items: Option<seq<RawItem>>)

  datatype ResultsView = Notice(text: string) | Results(cards: seq<Card>)

  /** The id a result card's buttons carry: a missing id is interpolated as "undefined". */
  function CardId(item: RawItem): string {
    Interpolate(item.id)
  }

  /** The card of one search result, labelled by the current membership of its id. */
  function ResultCard(item: RawItem, favorites: Slot, readLater: Slot): (c: Card)
    ensures c.id == CardId(item) && c.title != ""
    ensures c.title == Normalize(item).title.value
    ensures c.authors == Text.Join(Normalize(item).authors.value, ", ")
    ensures item.volumeInfo.Some? && item.volumeInfo.value.imageLinks.Some?
            ==> c.thumbnail == Interpolate(item.volumeInfo.value.imageLinks.value.thumbnail)
    ensures !(item.volumeInfo.Some? && item.volumeInfo.value.imageLinks.Some?) ==> c.thumbnail == PlaceholderThumbnail
    ensures c.favoriteLabel == FavoriteLabel(IsMember(favorites, c.id))
    ensures c.readLaterLabel == ReadLaterLabel(IsMember(readLater, c.id))
    ensures c.download == DownloadLink(item.accessInfo)
  {
    var book := Normalize(item);
    var id := CardId(item);
    Card(
      id,
      book.title.value,
      Text.Join(book.authors.value, ", "),
      Interpolate(book.imageLinks.value.thumbnail),
      DownloadLink(item.accessInfo),
      FavoriteLabel(IsMember(favorites, id)),
      ReadLaterLabel(IsMember(readLater, id)))
  }

  /**
   * What the results container shows once the fetch settles. An `items` array
   * that is present but empty is truthy, so it gives an empty list of cards,
   * not the "No books found." message.
   */
  function ShowResults(response: Response, favorites: Slot, readLater: Slot): (v: ResultsView)
    ensures response.FetchFailed? ==> v == Notice(FetchErrorMessage)
    ensures response.Body? && response.items.None? ==> v == Notice(NoBooksMessage)
    ensures response.Body? && response.items.Some? ==>
      && v.Results?
      && |v.cards| == |response.items.value|
      && forall i :: 0 <= i < |v.cards| ==> v.cards[i] == ResultCard(response.items.value[i], favorites, readLater)
  {
    match response
    case FetchFailed => Notice(FetchErrorMessage)
    case Body(None) => Notice(NoBooksMessage)
    case Body(Some(items)) =>
      Results(seq(|items|, i requires 0 <= i < |items| => ResultCard(items[i], favorites, readLater)))
  }

  /** The record a result card hands to a toggle always passes validation, unless the item's id is empty. */
  lemma ResultToggleIsValid(item: RawItem)
    ensures IsValidToggle(CardId(item), Some(Normalize(item))) <==> item.id != Some("")
  {
  }

  /**
   * Toggling a result's favourite button flips that card's label once the
   * results are rendered again, when the favourites blob parses and the id is not empty.
   */
  lemma ToggleFlipsResultLabel(item: RawItem, favorites: Slot, readLater: Slot)
    requires favorites.Entries? && item.id != Some("")
    ensures var after := ToggleSlot(Favorites, favorites, CardId(item), Some(Normalize(item))).0;
      ResultCard(item, after, readLater).favoriteLabel != ResultCard(item, favorites, readLater).favoriteLabel
  {
  }
}
