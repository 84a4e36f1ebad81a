/**
 * `refreshPage`: the page tells which view it is by the container it holds,
 * and a refresh re-runs that view's routine. Also the lemmas that follow a
 * toggle through a refresh.
 */
module Page {
  import opened Wrappers
  import opened Books
  import opened Cards
  import opened Store
  import opened Lists
  import opened Search

  /** Which of the three containers the page holds. */
  datatype Containers = Containers(books: bool, readLaterList: bool, favoritesList: bool)

  datatype View = SearchView | ReadLaterView | FavoritesView | NoView

  /** The view a refresh re-runs: search over read-later over favourites, or none. */
  function RefreshTarget(present: Containers): (v: View)
    ensures v == SearchView <==> present.books
    ensures v == ReadLaterView <==> !present.books && present.readLaterList
    ensures v == FavoritesView <==> !present.books && !present.readLaterList && present.favoritesList
    ensures v == NoView <==> !present.books && !present.readLaterList && !present.favoritesList
  {
    if present.books then SearchView
    else if present.readLaterList then ReadLaterView
    else if present.favoritesList then FavoritesView
    else NoView
  }

  /** What a refresh puts on screen. */
  datatype Screen =
    | SearchScreen(start: SearchStart)
    | ListScreen(view: ListView)
    | Unchanged

  /**
   * `refreshPage()` over the saved state and the search inputs. A list view is
   * re-rendered from scratch, so its filter box is cleared.
   */
  method Refresh(present: Containers, library: Library, query: string, sort: string, filter: string)
    returns (screen: Screen)
    ensures RefreshTarget(present) == NoView <==> screen.Unchanged?
    ensures RefreshTarget(present) == SearchView <==> screen.SearchScreen?
    ensures screen.SearchScreen? ==> StartOf(query, sort, filter, screen.start)
    ensures RefreshTarget(present) == ReadLaterView ==>
      screen.ListScreen? && ListViewOf(ReadLater, library.readLater, library.favorites, "", screen.view)
    ensures RefreshTarget(present) == FavoritesView ==>
      screen.ListScreen? && ListViewOf(Favorites, library.favorites, library.readLater, "", screen.view)
  {
    match RefreshTarget(present)
    case SearchView =>
      var start := StartSearch(query, sort, filter);
      screen := SearchScreen(start);
    case ReadLaterView =>
      var view := ShowReadLater(library.readLater, library.favorites, "");
      screen := ListScreen(view);
    case FavoritesView =>
      var view := ShowFavorites(library.favorites, library.readLater, "");
      screen := ListScreen(view);
    case NoView =>
      screen := Unchanged;
  }

  /**
   * A result added to favourites shows up on the favourites page after a
   * refresh, under its id and with the title its result card showed.
   */
  lemma AddedResultIsListed(item: RawItem, favorites: Slot, readLater: Slot, cards: seq<Card>)
    requires favorites.Entries? && item.id != Some("") && !IsMember(favorites, CardId(item))
    requires var after := ToggleSlot(Favorites, favorites, CardId(item), Some(Normalize(item))).0;
      CardsFor(Favorites, after.entries, "", readLater, cards)
    ensures exists i :: 0 <= i < |cards| && cards[i].id == CardId(item)
              && cards[i].title == ResultCard(item, favorites, readLater).title
  {
    var id := CardId(item);
    var after := ToggleSlot(Favorites, favorites, id, Some(Normalize(item))).0;
    ResultToggleIsValid(item);
    EmptyFilterShowsAllValid(after.entries[id]);
    assert HasCardFor(cards, id);
    var i :| 0 <= i < |cards| && cards[i].id == id;
    assert IsCardOf(Favorites, after.entries, "", readLater, cards[i]);
  }

  /**
   * Pressing a saved card's removal button takes its entry out, so the list
   * rendered afterwards, whatever its filter, has no card with that id.
   */
  lemma RemovedEntryIsNotListed(kind: Kind, items: Collection, id: string, filterText: string, other: Slot, cards: seq<Card>)
    requires id != "" && id in items && Shows(items[id], filterText)
    requires var after := ToggleSlot(kind, Entries(items), id, items[id]).0;
      CardsFor(kind, after.entries, filterText, other, cards)
    ensures forall i :: 0 <= i < |cards| ==> cards[i].id != id
  {
  }

  /** Removing the only saved entry deletes its key, so the page shows its empty message. */
  lemma RemovingLastEntryShowsEmptyMessage(kind: Kind, id: string, info: Book, other: Slot, filterText: string, view: ListView)
    requires id != "" && Truthy(info.title)
    requires ListViewOf(kind, ToggleSlot(kind, Entries(map[id := Some(info)]), id, Some(info)).0, other, filterText, view)
    ensures view == EmptyMessage(EmptyText(kind))
  {
    var after := ToggleSlot(kind, Entries(map[id := Some(info)]), id, Some(info)).0;
    assert after.entries == map[];
  }
}
