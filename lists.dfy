/**
 * The favourites and read-later pages: `renderList` turns a saved collection
 * and the text typed into the page's filter box into cards, and
 * `showFavorites` / `showReadLater` load the collection first.
 *
 * Entries are visited in whatever order the store yields them; the model
 * picks each next key nondeterministically.
 */
module Lists {
  import opened Wrappers
  import opened Books
  import opened Cards
  import opened Store
  import Text

  datatype ListView =
    /** the collection has no entries at all */
    | EmptyMessage(text: string)
    /** the cards of the entries that pass the filter, possibly none */
    | CardList(cards: seq<Card>)
    /** the blob did not parse, and the page says so */
    | LoadError(text: string)
    /** the blob did not parse, and the exception escapes; nothing is rendered */
    | Thrown

  function EmptyText(kind: Kind): string {
    match kind
    case Favorites => "No favorites saved."
    case ReadLater => "No read later books saved."
  }

  const FavoritesLoadError := "Error loading favorites."

  /** An entry gets a card when it holds a record with a title containing the filter text, ignoring case. */
  predicate Shows(info: Option<Book>, filterText: string) {
    && info.Some?
    && Truthy(info.value.title)
    && Text.Includes(Text.ToLower(info.value.title.value), Text.ToLower(filterText))
  }

  /**
   * The card of a saved entry. The button of the page's own collection always
   * offers removal; the other button asks the other collection.
   */
  function SavedCard(kind: Kind, id: string, info: Book, other: Slot): (c: Card)
    requires Truthy(info.title)
    ensures c.id == id && c.title == info.title.value
    ensures c.authors == SavedAuthorsText(info.authors)
    ensures c.download == DownloadLink(info.accessInfo)
    ensures info.imageLinks.Some? && Truthy(info.imageLinks.value.thumbnail) ==> c.thumbnail == info.imageLinks.value.thumbnail.value
    ensures !(info.imageLinks.Some? && Truthy(info.imageLinks.value.thumbnail)) ==> c.thumbnail == PlaceholderThumbnail
    ensures c.favoriteLabel == if kind == Favorites then RemoveFavoriteLabel else FavoriteLabel(IsMember(other, id))
    ensures c.readLaterLabel == if kind == ReadLater then RemoveReadLaterLabel else ReadLaterLabel(IsMember(other, id))
  {
    var thumbnail := match info.imageLinks
      case Some(links) => OrElse(links.thumbnail, PlaceholderThumbnail)
      case None => PlaceholderThumbnail;
    Card(
      id,
      info.title.value,
      SavedAuthorsText(info.authors),
      thumbnail,
      DownloadLink(info.accessInfo),
      if kind == Favorites then RemoveFavoriteLabel else FavoriteLabel(IsMember(other, id)),
      if kind == ReadLater then RemoveReadLaterLabel else ReadLaterLabel(IsMember(other, id)))
  }

  /** `c` is the card of an entry of `items` that passes the filter. */
  ghost predicate IsCardOf(kind: Kind, items: Collection, filterText: string, other: Slot, c: Card) {
    && c.id in items
    && Shows(items[c.id], filterText)
    && c == SavedCard(kind, c.id, items[c.id].value, other)
  }

  ghost predicate HasCardFor(cards: seq<Card>, id: string) {
    exists i :: 0 <= i < |cards| && cards[i].id == id
  }

  ghost predicate DistinctIds(cards: seq<Card>) {
    forall i, j :: 0 <= i < j < |cards| ==> cards[i].id != cards[j].id
  }

  /** `cards` has exactly one card for each entry of `items` that passes the filter, and nothing else. */
  ghost predicate CardsFor(kind: Kind, items: Collection, filterText: string, other: Slot, cards: seq<Card>) {
    && DistinctIds(cards)
    && (forall i :: 0 <= i < |cards| ==> IsCardOf(kind, items, filterText, other, cards[i]))
    && (forall id :: id in items && Shows(items[id], filterText) ==> HasCardFor(cards, id))
  }

  /** `renderList(items, filterText)`: the empty message, or one card per entry that passes the filter. */
  method RenderList(kind: Kind, items: Collection, filterText: string, other: Slot) returns (view: ListView)
    ensures view.EmptyMessage? || view.CardList?
    ensures view.EmptyMessage? <==> |items| == 0
    ensures view.EmptyMessage? ==> view.text == EmptyText(kind)
    ensures view.CardList? ==> CardsFor(kind, items, filterText, other, view.cards)
  {
    if |items| == 0 {
      return EmptyMessage(EmptyText(kind));
    }
    var pending := items.Keys;
    var cards: seq<Card> := [];
    var needle := Text.ToLower(filterText);
    while pending != {}
      invariant pending <= items.Keys
      invariant DistinctIds(cards)
      invariant forall i :: 0 <= i < |cards| ==> cards[i].id !in pending
      invariant forall i :: 0 <= i < |cards| ==> IsCardOf(kind, items, filterText, other, cards[i])
      invariant forall id :: id in items && id !in pending && Shows(items[id], filterText) ==> HasCardFor(cards, id)
      decreases pending
    {
      var id :| id in pending;
      var info := items[id];
      ghost var before := cards;
      if info.Some? && Truthy(info.value.title) && Text.Includes(Text.ToLower(info.value.title.value), needle) {
        var card := SavedCard(kind, id, info.value, other);
        cards := cards + [card];
        assert IsCardOf(kind, items, filterText, other, card);
        assert HasCardFor(cards, id) by { assert cards[|cards| - 1].id == id; }
      }
      forall k | k in items && k !in pending - {id} && Shows(items[k], filterText)
        ensures HasCardFor(cards, k)
      {
        if k != id {
          assert HasCardFor(before, k);
          var i :| 0 <= i < |before| && before[i].id == k;
          assert cards[i].id == k;
        }
      }
      pending := pending - {id};
    }
    view := CardList(cards);
  }

  /**
   * What a list page shows for a saved slot: the page's parse failure when the
   * blob is corrupt (an error message for favourites, an escaping exception for
   * read-later); otherwise the empty message exactly when there are no entries,
   * and else the cards of the entries that pass the filter.
   */
  ghost predicate ListViewOf(kind: Kind, slot: Slot, other: Slot, filterText: string, view: ListView) {
    match slot
    case Corrupt =>
      view == if kind == Favorites then LoadError(FavoritesLoadError) else Thrown
    case Entries(items) =>
      && (view.EmptyMessage? || view.CardList?)
      && (view.EmptyMessage? <==> |items| == 0)
      && (view.EmptyMessage? ==> view.text == EmptyText(kind))
      && (view.CardList? ==> CardsFor(kind, items, filterText, other, view.cards))
  }

  /** `showFavorites()` with the filter box holding `filterText`. */
  method ShowFavorites(favorites: Slot, readLater: Slot, filterText: string) returns (view: ListView)
    ensures ListViewOf(Favorites, favorites, readLater, filterText, view)
  {
    match favorites
    case Corrupt =>
      view := LoadError(FavoritesLoadError);
    case Entries(favs) =>
      view := RenderList(Favorites, favs, filterText, readLater);
  }

  /** `showReadLater()` with the filter box holding `filterText`; its parse is not guarded. */
  method ShowReadLater(readLater: Slot, favorites: Slot, filterText: string) returns (view: ListView)
    ensures ListViewOf(ReadLater, readLater, favorites, filterText, view)
  {
    match readLater
    case Corrupt =>
      view := Thrown;
    case Entries(items) =>
      view := RenderList(ReadLater, items, filterText, favorites);
  }

  /** With an empty filter every entry that holds a titled record gets a card. */
  lemma EmptyFilterShowsAllValid(info: Option<Book>)
    ensures Shows(info, "") <==> info.Some? && Truthy(info.value.title)
  {
  }

  /** The filter ignores the case of what is typed. */
  lemma FilterIgnoresCase(info: Option<Book>, filterText: string)
    ensures Shows(info, filterText) == Shows(info, Text.ToLower(filterText))
  {
    Text.ToLowerIdempotent(filterText);
  }

  /**
   * The removal label a saved card always shows agrees with the membership
   * check: every entry that gets a card is a member of its collection.
   */
  lemma SavedLabelAgreesWithMembership(kind: Kind, items: Collection, filterText: string, id: string, other: Slot)
    requires id in items && Shows(items[id], filterText)
    ensures var c := SavedCard(kind, id, items[id].value, other);
      kind == Favorites ==> c.favoriteLabel == FavoriteLabel(IsMember(Entries(items), id))
    ensures var c := SavedCard(kind, id, items[id].value, other);
      kind == ReadLater ==> c.readLaterLabel == ReadLaterLabel(IsMember(Entries(items), id))
  {
  }
}
