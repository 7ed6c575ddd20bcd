/**
 * The command-line crate's own `Bookmark::format`: the same placeholders as
 * the library's, with the values substituted as they are (no unescaping)
 * and the timestamps rendered as UTC date strings. Its record, tag list
 * and display are the ones of the Bookmarks module.
 */
module CliBookmarks {
  import opened Utils
  import opened Bookmarks

  /** Both timestamps must be renderable; the date library panics otherwise. */
  predicate Renderable(b: Bookmark) {
    MinTimestamp <= b.addedAt <= MaxTimestamp && MinTimestamp <= b.lastModified <= MaxTimestamp
  }

  function Format(b: Bookmark, template: string): string
    requires Renderable(b)
  {
    FillPlaceholders(template, b.name, b.link, DateString(b.addedAt), DateString(b.lastModified),
      TagListText(b.tags), b.description)
  }

  /** A format string without '%' is printed as it is. */
  lemma FormatPlain(b: Bookmark, template: string)
    requires Renderable(b) && '%' !in template
    ensures Format(b, template) == template
  {
    FillPlain(template, b.name, b.link, DateString(b.addedAt), DateString(b.lastModified),
      TagListText(b.tags), b.description);
  }

  /**
   * The default format string reproduces the bookmark's display when its
   * name, link and tags hold no '%'.
   */
  lemma FormatDefaultIsDisplay(b: Bookmark)
    requires Renderable(b)
    requires '%' !in b.name && '%' !in b.link && '%' !in TagListText(b.tags)
    ensures Format(b, DefaultTemplate) == BookmarkText(b)
  {
    FillDefaultTemplate(b.name, b.link, DateString(b.addedAt), DateString(b.lastModified),
      TagListText(b.tags), b.description);
  }

  /**
   * "%t" prints the tag list's display and "%a" the added date, when the
   * text fields hold no '%' (the date strings never do).
   */
  lemma FormatSingleFields(b: Bookmark)
    requires Renderable(b)
    requires '%' !in b.name && '%' !in b.link && '%' !in TagListText(b.tags) && '%' !in b.description
    ensures Format(b, "%t") == TagListText(b.tags)
    ensures Format(b, "%a") == DateString(b.addedAt)
  {
    DateStringSeconds(b.addedAt);
    DateStringSeconds(b.lastModified);
    FillSingle(b.name, b.link, DateString(b.addedAt), DateString(b.lastModified),
      TagListText(b.tags), b.description);
  }
}
