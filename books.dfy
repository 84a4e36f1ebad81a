/**
 * Book records: the raw search item the catalogue returns, the record the page
 * builds from it (`bookInfo`), and the defaults it fills in.
 *
 * The record has the JSON shape the page stores: every field may be missing
 * (`None`), because a stored record is whatever the saved blob holds.
 */
module Books {
  import opened Wrappers
  import Text

  datatype ImageLinks = ImageLinks(thumbnail: Option<string>)
  datatype Pdf = Pdf(downloadLink: Option<string>)
  datatype AccessInfo = AccessInfo(pdf: Option<Pdf>)

  datatype VolumeInfo = VolumeInfo(title: Option<string>, authors: Option<seq<string>>, imageLinks: Option<ImageLinks>)

  /** One element of the response's `items`. */
  datatype RawItem = RawItem(id: Option<string>, volumeInfo: Option<VolumeInfo>, accessInfo: Option<AccessInfo>)

  /** `bookInfo`, and the value stored under a book id. */
  datatype Book = Book(title: Option<string>, authors: Option<seq<string>>, imageLinks: Option<ImageLinks>, accessInfo: Option<AccessInfo>)

  const UnknownTitle := "Unknown Title"
  const UnknownAuthor := "Unknown Author"
  const PlaceholderThumbnail := "https://via.placeholder.com/128x192"

  /** A string property is truthy when it is present and not empty. */
  predicate Truthy(s: Option<string>) {
    s.Some? && s.value != ""
  }

  /** `s || fallback` on a string property. */
  function OrElse(s: Option<string>, fallback: string): (r: string)
    ensures Truthy(s) ==> r == s.value
    ensures !Truthy(s) ==> r == fallback
  {
    if Truthy(s) then s.value else fallback
  }

  /** How a template literal writes a string property: a missing one reads "undefined". */
  function Interpolate(s: Option<string>): string {
    match s
    case Some(v) => v
    case None => "undefined"
  }

  /** `accessInfo?.pdf?.downloadLink || null`. */
  function DownloadLink(accessInfo: Option<AccessInfo>): (link: Option<string>)
    ensures link.Some? <==> accessInfo.Some? && accessInfo.value.pdf.Some?
                            && Truthy(accessInfo.value.pdf.value.downloadLink)
    ensures link.Some? ==> link == accessInfo.value.pdf.value.downloadLink
  {
    match accessInfo
    case Some(AccessInfo(Some(Pdf(link)))) => if Truthy(link) then link else None
    case _ => None
  }

  /** The record built for a search item, with the page's defaults filled in. */
  function Normalize(item: RawItem): (b: Book)
    ensures Truthy(b.title)
    ensures b.authors.Some? && b.imageLinks.Some? && b.accessInfo.Some?
    ensures item.volumeInfo.Some? && Truthy(item.volumeInfo.value.title) ==> b.title == item.volumeInfo.value.title
    ensures !(item.volumeInfo.Some? && Truthy(item.volumeInfo.value.title)) ==> b.title == Some(UnknownTitle)
    ensures item.volumeInfo.Some? && item.volumeInfo.value.authors.Some? ==> b.authors == item.volumeInfo.value.authors
    ensures !(item.volumeInfo.Some? && item.volumeInfo.value.authors.Some?) ==> b.authors == Some([UnknownAuthor])
    ensures item.volumeInfo.Some? && item.volumeInfo.value.imageLinks.Some? ==> b.imageLinks == item.volumeInfo.value.imageLinks
    ensures !(item.volumeInfo.Some? && item.volumeInfo.value.imageLinks.Some?)
            ==> b.imageLinks == Some(ImageLinks(Some(PlaceholderThumbnail)))
    ensures item.accessInfo.Some? ==> b.accessInfo == item.accessInfo
    ensures item.accessInfo.None? ==> b.accessInfo == Some(AccessInfo(None))
  {
    var info := if item.volumeInfo.Some? then item.volumeInfo.value else VolumeInfo(None, None, None);
    Book(
      Some(OrElse(info.title, UnknownTitle)),
      Some(if info.authors.Some? then info.authors.value else [UnknownAuthor]),
      Some(if info.imageLinks.Some? then info.imageLinks.value else ImageLinks(Some(PlaceholderThumbnail))),
      Some(if item.accessInfo.Some? then item.accessInfo.value else AccessInfo(None)))
  }

  /** The stored copy of a search item offers the same download as the item itself. */
  lemma NormalizeKeepsDownload(item: RawItem)
    ensures DownloadLink(Normalize(item).accessInfo) == DownloadLink(item.accessInfo)
  {
  }

  /** The authors line of a saved card: `authors?.join(", ") || "Unknown Author"`. */
  function SavedAuthorsText(authors: Option<seq<string>>): (text: string)
    ensures text != ""
    ensures authors.None? || authors.value == [] || authors.value == [""] ==> text == UnknownAuthor
    ensures authors.Some? && |authors.value| == 1 && authors.value[0] != "" ==> text == authors.value[0]
    ensures authors.Some? && Text.Join(authors.value, ", ") != "" ==> text == Text.Join(authors.value, ", ")
  {
    match authors
    case None => UnknownAuthor
    case Some(names) =>
      var joined := Text.Join(names, ", ");
      Text.JoinEmptyIff(names, ", ");
      if joined != "" then joined else UnknownAuthor
  }
}
