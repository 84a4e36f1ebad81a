/**
 * What a rendered book card shows, as data instead of markup: the id its
 * buttons act on, the title, the authors line, the thumbnail, the download
 * link when there is one, and the labels of the two toggle buttons.
 */
module Cards {
  import opened Wrappers

  datatype Card = Card(
    id: string,
    title: string,
    authors: string,
    thumbnail: string,
    download: Option<string>,
    favoriteLabel: string,
    readLaterLabel: string)

  const RemoveFavoriteLabel := "Remove from Favorites"
  const RemoveReadLaterLabel := "Remove from Read Later"

  /** The favourite button's label for a book that is, or is not, a favourite. */
  function FavoriteLabel(member: bool): string {
    if member then RemoveFavoriteLabel else "Add to Favorites"
  }

  /** The read-later button's label for a book that is, or is not, saved for later. */
  function ReadLaterLabel(member: bool): string {
    if member then RemoveReadLaterLabel else "Add to Read Later"
  }
}
