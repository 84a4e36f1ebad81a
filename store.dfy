/**
 * The two saved collections, favourites and read-later, and the toggles that
 * change them. Persistent storage is held in memory: each collection is a
 * slot whose blob either parses to a map from book id to stored value or is
 * corrupt (the parse throws). A missing blob parses as the empty map.
 */
module Store {
  import opened Wrappers
  import opened Books

  /** Book id to stored value; `None` stands for a falsy JSON value (null, false, 0, ""). */
  type Collection = map<string, Option<Book>>

  datatype Slot = Corrupt | Entries(entries: Collection)

  datatype Kind = Favorites | ReadLater

  /** `!!items[id]`: the id is present with a truthy value. */
  predicate Holds(c: Collection, id: string) {
    id in c && c[id].Some?
  }

  /** `isFavorite(id)` / `isReadLater(id)`: false, not a failure, when the blob does not parse. */
  predicate IsMember(slot: Slot, id: string): (member: bool)
    ensures member <==> slot.Entries? && id in slot.entries && slot.entries[id].Some?
  {
    match slot
    case Corrupt => false
    case Entries(c) => Holds(c, id)
  }

  /** `!id || !info || !info.title` fails. */
  predicate IsValidToggle(id: string, info: Option<Book>) {
    id != "" && info.Some? && Truthy(info.value.title)
  }

  /** Delete the id when it holds a truthy value, otherwise store the record under it. */
  function Toggle(c: Collection, id: string, info: Book): (r: Collection)
    ensures Holds(r, id) <==> !Holds(c, id)
    ensures Holds(c, id) ==> id !in r
    ensures !Holds(c, id) ==> id in r && r[id] == Some(info)
    ensures forall k :: k != id ==> (k in r <==> k in c)
    ensures forall k :: k in r && k != id ==> r[k] == c[k]
  {
    if Holds(c, id) then c - {id} else c[id := Some(info)]
  }

  datatype ToggleOutcome =
    | Added
    | Removed
    /** validation failed; the alert shown, if any */
    | Rejected(notice: Option<string>)
    /** the blob did not parse; the catch block's alert */
    | Failed(alert: string)
  {
    predicate Changed() { Added? || Removed? }
  }

  const InvalidFavoriteAlert := "Cannot add book to favorites: invalid data."

  function FailureAlert(kind: Kind): string {
    match kind
    case Favorites => "Error updating favorites. Please try again."
    case ReadLater => "Error updating read later. Please try again."
  }

  /**
   * `toggleFavorite` / `toggleReadLater` on one slot: the new slot and the outcome.
   * The blob is parsed before the input is validated, so a corrupt blob fails
   * whatever the input.
   */
  function ToggleSlot(kind: Kind, slot: Slot, id: string, info: Option<Book>): (r: (Slot, ToggleOutcome))
    ensures r.1.Changed() <==> slot.Entries? && IsValidToggle(id, info)
    ensures !r.1.Changed() ==> r.0 == slot
    ensures slot.Corrupt? ==> r.1 == Failed(FailureAlert(kind))
    ensures r.1.Rejected? <==> slot.Entries? && !IsValidToggle(id, info)
    ensures r.1.Rejected? ==> (r.1.notice == Some(InvalidFavoriteAlert) <==> kind == Favorites)
    ensures r.1.Rejected? && kind == ReadLater ==> r.1.notice == None
    ensures r.1.Added? <==> r.1.Changed() && !IsMember(slot, id)
    ensures r.1.Added? ==> r.0.Entries? && id in r.0.entries && r.0.entries[id] == info
    ensures r.1.Removed? ==> r.0.Entries? && id !in r.0.entries && |r.0.entries| == |slot.entries| - 1
    ensures r.1.Changed() ==> r.0 == Entries(Toggle(slot.entries, id, info.value))
    ensures r.1.Changed() ==> (IsMember(r.0, id) <==> r.1.Added?)
    ensures r.1.Changed() ==> r.0.Entries? && forall k :: k != id ==>
              (k in r.0.entries <==> k in slot.entries) && (k in r.0.entries ==> r.0.entries[k] == slot.entries[k])
  {
    match slot
    case Corrupt => (slot, Failed(FailureAlert(kind)))
    case Entries(c) =>
      if !IsValidToggle(id, info) then
        (slot, Rejected(if kind == Favorites then Some(InvalidFavoriteAlert) else None))
      else
        (Entries(Toggle(c, id, info.value)), if Holds(c, id) then Removed else Added)
  }

  /** A toggle flips the membership of its id, and of no other id. */
  lemma ToggleFlipsMembership(kind: Kind, slot: Slot, id: string, info: Option<Book>, other: string)
    requires slot.Entries? && IsValidToggle(id, info)
    ensures IsMember(ToggleSlot(kind, slot, id, info).0, id) == !IsMember(slot, id)
    ensures other != id ==> IsMember(ToggleSlot(kind, slot, id, info).0, other) == IsMember(slot, other)
  {
  }

  /**
   * Toggling the same id twice restores its membership and every other entry;
   * when the id was not a member to begin with the collection is restored exactly.
   */
  lemma ToggleTwice(kind: Kind, slot: Slot, id: string, first: Option<Book>, second: Option<Book>)
    requires slot.Entries? && IsValidToggle(id, first) && IsValidToggle(id, second)
    ensures var twice := ToggleSlot(kind, ToggleSlot(kind, slot, id, first).0, id, second).0;
      && IsMember(twice, id) == IsMember(slot, id)
      && (forall k :: k != id ==> (k in twice.entries <==> k in slot.entries))
      && (forall k :: k != id && k in twice.entries ==> twice.entries[k] == slot.entries[k])
      && (id !in slot.entries ==> twice == slot)
  {
  }

  /** The page's saved state: the favourites blob and the read-later blob. */
  class Library {
    var favorites: Slot
    var readLater: Slot

    constructor (favorites: Slot, readLater: Slot)
      ensures this.favorites == favorites && this.readLater == readLater
    {
      this.favorites := favorites;
      this.readLater := readLater;
    }

    /** `isFavorite(id)`. */
    predicate IsFavorite(id: string)
      reads this
    {
      IsMember(favorites, id)
    }

    /** `isReadLater(id)`. */
    predicate IsReadLater(id: string)
      reads this
    {
      IsMember(readLater, id)
    }

    /** `toggleFavorite(id, info)`: updates the parsed map in place, then writes it back. */
    method ToggleFavorite(id: string, info: Option<Book>) returns (outcome: ToggleOutcome)
      modifies this
      ensures (favorites, outcome) == ToggleSlot(Favorites, old(favorites), id, info)
      ensures readLater == old(readLater)
      ensures outcome.Changed() ==> (IsFavorite(id) <==> !old(IsFavorite(id)))
      ensures forall k :: k != id ==> IsFavorite(k) == old(IsFavorite(k))
      ensures forall k :: IsReadLater(k) == old(IsReadLater(k))
    {
      if favorites.Corrupt? {
        return Failed(FailureAlert(Favorites));
      }
      var favs := favorites.entries;
      if id == "" || info.None? || !Truthy(info.value.title) {
        return Rejected(Some(InvalidFavoriteAlert));
      }
      if id in favs && favs[id].Some? {
        favs := favs - {id};
        outcome := Removed;
      } else {
        favs := favs[id := info];
        outcome := Added;
      }
      favorites := Entries(favs);
    }

    /** `toggleReadLater(id, info)`: as `toggleFavorite`, but an invalid input is dropped silently. */
    method ToggleReadLater(id: string, info: Option<Book>) returns (outcome: ToggleOutcome)
      modifies this
      ensures (readLater, outcome) == ToggleSlot(ReadLater, old(readLater), id, info)
      ensures favorites == old(favorites)
      ensures outcome.Changed() ==> (IsReadLater(id) <==> !old(IsReadLater(id)))
      ensures forall k :: k != id ==> IsReadLater(k) == old(IsReadLater(k))
      ensures forall k :: IsFavorite(k) == old(IsFavorite(k))
    {
      if readLater.Corrupt? {
        return Failed(FailureAlert(ReadLater));
      }
      var items := readLater.entries;
      if id == "" || info.None? || !Truthy(info.value.title) {
        return Rejected(None);
      }
      if id in items && items[id].Some? {
        items := items - {id};
        outcome := Removed;
      } else {
        items := items[id := info];
        outcome := Added;
      }
      readLater := Entries(items);
    }
  }
}
