/**
 * The bookmark record, its tag list and their textual forms: the one-line
 * display and the `%`-placeholder format strings of the listing command.
 */
module Bookmarks {
  import opened Wrappers
  import opened Strings
  import opened Utils

  /** The tags of a bookmark, in their stored order. */
  datatype TagList = TagList(items: seq<string>)

  /** `TagList::from`: wraps the list as it is. */
  function TagListFrom(items: seq<string>): (t: TagList)
    ensures t.items == items
  {
    TagList(items)
  }

  /** `Display` of a tag list: the tags separated by ", ". */
  function TagListText(t: TagList): (s: string)
    ensures t.items == [] ==> s == ""
    ensures |t.items| == 1 ==> s == t.items[0]
  {
    Join(t.items, ", ")
  }

  /**
   * Reading a displayed tag list back: split on ',', it gives the first tag
   * and then every further tag behind the one space of its ", ", as long as
   * no tag holds a ','.
   */
  lemma {:induction false} TagListTextSplits(t: TagList)
    requires |t.items| >= 1
    requires forall k :: 0 <= k < |t.items| ==> ',' !in t.items[k]
    ensures var pieces := Split(TagListText(t), ',');
      && |pieces| == |t.items| && pieces[0] == t.items[0]
      && forall k :: 1 <= k < |pieces| ==> pieces[k] == " " + t.items[k]
    decreases |t.items|
  {
    var items := t.items;
    if |items| == 1 {
      SplitSingle(items[0], ',');
    } else {
      var rest := TagList(items[1..]);
      TagListTextSplits(rest);
      var j := TagListText(rest);
      assert TagListText(t) == items[0] + [','] + (" " + j);
      SplitAfterPiece(items[0], ',', " " + j);
      assert (" " + j)[0] == ' ' && (" " + j)[1..] == j;
      var tail := Split(j, ',');
      assert Split(" " + j, ',') == [" " + tail[0]] + tail[1..];
    }
  }

  /** A bookmark; the database id is not part of this model. */
  datatype Bookmark = Bookmark(
    name: string,
    link: string,
    addedAt: int,
    lastModified: int,
    tags: TagList,
    description: string)

  /** `Bookmark::default()`. */
  function DefaultBookmark(): (b: Bookmark)
    ensures b.name == "" && b.link == "" && b.description == ""
    ensures b.addedAt == 0 && b.lastModified == 0 && b.tags.items == []
  {
    Bookmark("", "", 0, 0, TagList([]), "")
  }

  /** `Display` of a bookmark: `name - link [tags]`. */
  function BookmarkText(b: Bookmark): string
  {
    b.name + " - " + b.link + " [" + TagListText(b.tags) + "]"
  }

  /**
   * The six placeholders of a format string, each replaced in turn (name,
   * link, added, modified, tags, description), every step working on the
   * result of the previous one.
   */
  function FillPlaceholders(template: string, name: string, link: string, added: string,
                            modified: string, tags: string, description: string): string
  {
    var r := Replace(template, "%n", name);
    var r := Replace(r, "%l", link);
    var r := Replace(r, "%a", added);
    var r := Replace(r, "%m", modified);
    var r := Replace(r, "%t", tags);
    Replace(r, "%d", description)
  }

  /** A format string with no '%' comes back unchanged, whatever the values. */
  lemma FillPlain(template: string, name: string, link: string, added: string,
                  modified: string, tags: string, description: string)
    requires '%' !in template
    ensures FillPlaceholders(template, name, link, added, modified, tags, description) == template
  {
    ReplaceWithoutLead(template, "%n", name);
    ReplaceWithoutLead(template, "%l", link);
    ReplaceWithoutLead(template, "%a", added);
    ReplaceWithoutLead(template, "%m", modified);
    ReplaceWithoutLead(template, "%t", tags);
    ReplaceWithoutLead(template, "%d", description);
  }

  /** The listing's default format string. */
  const DefaultTemplate: string := "%n - %l [%t]"

  /**
   * With '%'-free name, link and tags, the default format string gives
   * `name - link [tags]`.
   */
  lemma FillDefaultTemplate(name: string, link: string, added: string,
                            modified: string, tags: string, description: string)
    requires '%' !in name && '%' !in link && '%' !in tags
    ensures FillPlaceholders(DefaultTemplate, name, link, added, modified, tags, description)
      == name + " - " + link + " [" + tags + "]"
  {
    FillDefaultName(name);
    FillDefaultLink(name, link);
    var front := name + " - " + link + " [";
    assert '%' !in front;
    FillDefaultSkip(front, "%a", added);
    FillDefaultSkip(front, "%m", modified);
    FillDefaultTags(front, tags);
    ReplaceWithoutLead(front + tags + "]", "%d", description);
  }

  /** The default format string cut at its placeholders. */
  lemma DefaultTemplatePieces()
    ensures DefaultTemplate == [] + "%n" + (" - " + "%l" + (" [" + "%t" + "]"))
  {
  }

  /** The first step on the default format string: "%n" becomes the name. */
  lemma FillDefaultName(name: string)
    ensures Replace(DefaultTemplate, "%n", name) == name + (" - " + "%l" + (" [" + "%t" + "]"))
  {
    DefaultTemplatePieces();
    ReplaceThrough([], "%n", " - " + "%l" + (" [" + "%t" + "]"), name);
    ReplaceSkip(" - ", "%l", " [" + "%t" + "]", "%n", name);
    ReplaceSkip(" [", "%t", "]", "%n", name);
    ReplaceWithoutLead("]", "%n", name);
  }

  /** The second step: "%l" becomes the link, after a '%'-free name. */
  lemma FillDefaultLink(name: string, link: string)
    requires '%' !in name
    ensures Replace(name + (" - " + "%l" + (" [" + "%t" + "]")), "%l", link)
      == name + " - " + link + " [" + "%t]"
  {
    assert name + (" - " + "%l" + (" [" + "%t" + "]")) == (name + " - ") + "%l" + (" [" + "%t" + "]");
    ReplaceThrough(name + " - ", "%l", " [" + "%t" + "]", link);
    ReplaceSkip(" [", "%t", "]", "%l", link);
    ReplaceWithoutLead("]", "%l", link);
    assert (name + " - ") + link + (" [" + "%t" + "]") == name + " - " + link + " [" + "%t]";
  }

  /** "%a" and "%m" find nothing to replace once only "%t" is left. */
  lemma FillDefaultSkip(front: string, pat: string, value: string)
    requires '%' !in front
    requires pat == "%a" || pat == "%m"
    ensures Replace(front + "%t]", pat, value) == front + "%t]"
  {
    assert front + "%t]" == front + "%t" + "]";
    ReplaceSkip(front, "%t", "]", pat, value);
    ReplaceWithoutLead("]", pat, value);
  }

  /** The fifth step: "%t" becomes the tags. */
  lemma FillDefaultTags(front: string, tags: string)
    requires '%' !in front
    ensures Replace(front + "%t]", "%t", tags) == front + tags + "]"
  {
    assert front + "%t]" == front + "%t" + "]";
    ReplaceThrough(front, "%t", "]", tags);
    ReplaceWithoutLead("]", "%t", tags);
  }

  /**
   * Values are substituted once and then scanned by the later steps: a name
   * that reads "%l" comes out as the link.
   */
  lemma FillCascades(link: string, added: string, modified: string, tags: string, description: string)
    requires '%' !in link
    ensures FillPlaceholders("%n", "%l", link, added, modified, tags, description) == link
  {
    ReplaceThrough([], "%n", [], "%l");
    ReplaceThrough([], "%l", [], link);
    assert Replace("%n", "%n", "%l") == "%l";
    assert Replace("%l", "%l", link) == link;
    ReplaceWithoutLead(link, "%a", added);
    ReplaceWithoutLead(link, "%m", modified);
    ReplaceWithoutLead(link, "%t", tags);
    ReplaceWithoutLead(link, "%d", description);
  }

  /** A lone placeholder gives its value, when no value holds a '%'. */
  lemma FillSingle(name: string, link: string, added: string, modified: string, tags: string, description: string)
    requires '%' !in name && '%' !in link && '%' !in added && '%' !in modified
    requires '%' !in tags && '%' !in description
    ensures FillPlaceholders("%n", name, link, added, modified, tags, description) == name
    ensures FillPlaceholders("%a", name, link, added, modified, tags, description) == added
    ensures FillPlaceholders("%t", name, link, added, modified, tags, description) == tags
  {
    ReplaceThrough([], "%n", [], name);
    assert Replace("%n", "%n", name) == name;
    ReplaceWithoutLead(name, "%l", link);
    ReplaceWithoutLead(name, "%a", added);
    ReplaceWithoutLead(name, "%m", modified);
    ReplaceWithoutLead(name, "%t", tags);
    ReplaceWithoutLead(name, "%d", description);

    ReplaceSkip([], "%a", [], "%n", name);
    ReplaceSkip([], "%a", [], "%l", link);
    assert Replace("%a", "%n", name) == "%a";
    assert Replace("%a", "%l", link) == "%a";
    ReplaceThrough([], "%a", [], added);
    assert Replace("%a", "%a", added) == added;
    ReplaceWithoutLead(added, "%m", modified);
    ReplaceWithoutLead(added, "%t", tags);
    ReplaceWithoutLead(added, "%d", description);

    ReplaceSkip([], "%t", [], "%n", name);
    ReplaceSkip([], "%t", [], "%l", link);
    ReplaceSkip([], "%t", [], "%a", added);
    ReplaceSkip([], "%t", [], "%m", modified);
    assert Replace("%t", "%n", name) == "%t";
    assert Replace("%t", "%l", link) == "%t";
    assert Replace("%t", "%a", added) == "%t";
    assert Replace("%t", "%m", modified) == "%t";
    ReplaceThrough([], "%t", [], tags);
    assert Replace("%t", "%t", tags) == tags;
    ReplaceWithoutLead(tags, "%d", description);
  }

  /** The text the tags attribute of an exported file would hold: the tags joined by ','. */
  function TagsAttribute(t: TagList): string
  {
    Join(t.items, [','])
  }

  /**
   * Splitting a tags attribute on ',' and dropping empty pieces, as the
   * import parsers do, gives back a list of non-empty tags without commas.
   */
  lemma TagsAttributeRoundTrip(t: TagList)
    requires forall k :: 0 <= k < |t.items| ==> t.items[k] != [] && ',' !in t.items[k]
    ensures NonEmpty(Split(TagsAttribute(t), ',')) == t.items
  {
    if t.items == [] {
      assert Split([], ',') == [[]];
    } else {
      SplitJoin(t.items, ',');
      NonEmptyAll(t.items);
    }
  }

  // ---------------------------------------------------------------------
  // bkmrk-lib: `Bookmark::format` unescapes every substituted value.
  // ---------------------------------------------------------------------

  /**
   * What `format` needs to not panic: every value it unescapes must
   * unescape, and both timestamps must lie in the date library's range.
   */
  predicate CanFormat(b: Bookmark, unescape: string -> Option<string>) {
    unescape(b.name).Some? && unescape(b.link).Some? &&
    MinTimestamp <= b.addedAt <= MaxTimestamp && unescape(DateString(b.addedAt)).Some? &&
    MinTimestamp <= b.lastModified <= MaxTimestamp && unescape(DateString(b.lastModified)).Some? &&
    unescape(TagListText(b.tags)).Some? && unescape(b.description).Some?
  }

  /**
   * `Bookmark::format` of the library: each placeholder replaced by the
   * unescaped field. `unescape` (string escapes such as `\n`) is outside
   * this model and given as a partial function.
   */
  function Format(b: Bookmark, template: string, unescape: string -> Option<string>): string
    requires CanFormat(b, unescape)
  {
    FillPlaceholders(template,
      unescape(b.name).value,
      unescape(b.link).value,
      unescape(DateString(b.addedAt)).value,
      unescape(DateString(b.lastModified)).value,
      unescape(TagListText(b.tags)).value,
      unescape(b.description).value)
  }

  /** The template itself is never unescaped: without '%' it comes back as given. */
  lemma FormatPlain(b: Bookmark, template: string, unescape: string -> Option<string>)
    requires CanFormat(b, unescape) && '%' !in template
    ensures Format(b, template, unescape) == template
  {
    FillPlain(template, unescape(b.name).value, unescape(b.link).value,
      unescape(DateString(b.addedAt)).value, unescape(DateString(b.lastModified)).value,
      unescape(TagListText(b.tags)).value, unescape(b.description).value);
  }

  /** "%n" gives the unescaped name, when no unescaped value holds a '%'. */
  lemma FormatName(b: Bookmark, unescape: string -> Option<string>)
    requires CanFormat(b, unescape)
    requires '%' !in unescape(b.name).value && '%' !in unescape(b.link).value
    requires '%' !in unescape(DateString(b.addedAt)).value
    requires '%' !in unescape(DateString(b.lastModified)).value
    requires '%' !in unescape(TagListText(b.tags)).value && '%' !in unescape(b.description).value
    ensures Format(b, "%n", unescape) == unescape(b.name).value
  {
    FillSingle(unescape(b.name).value, unescape(b.link).value,
      unescape(DateString(b.addedAt)).value, unescape(DateString(b.lastModified)).value,
      unescape(TagListText(b.tags)).value, unescape(b.description).value);
  }

  /** The names of a list of bookmarks. */
  function Names(bs: seq<Bookmark>): (r: seq<string>)
    ensures |r| == |bs| && forall k :: 0 <= k < |bs| ==> r[k] == bs[k].name
  {
    seq(|bs|, k requires 0 <= k < |bs| => bs[k].name)
  }

  lemma NamesAppend(bs: seq<Bookmark>, b: Bookmark)
    ensures Names(bs + [b]) == Names(bs) + [b.name]
  {
    assert forall k :: 0 <= k < |bs| ==> (bs + [b])[k] == bs[k];
  }

  lemma NamesRedescribe(bs: seq<Bookmark>, description: string)
    requires bs != []
    ensures Names(bs[..|bs| - 1] + [bs[|bs| - 1].(description := description)]) == Names(bs)
  {
    var after := bs[..|bs| - 1] + [bs[|bs| - 1].(description := description)];
    assert forall k :: 0 <= k < |bs| ==> after[k].name == bs[k].name;
  }

  /** The bookmark names the Netscape importer makes of anchor texts: trimmed, whitespace runs squeezed. */
  function Titles(texts: seq<string>): (r: seq<string>)
    ensures |r| == |texts|
  {
    if texts == [] then [] else [Squeeze(Trim(texts[0]))] + Titles(texts[1..])
  }

  lemma {:induction false} TitlesAppend(a: seq<string>, b: seq<string>)
    ensures Titles(a + b) == Titles(a) + Titles(b)
    decreases |a|
  {
    if a != [] {
      assert (a + b)[0] == a[0];
      assert (a + b)[1..] == a[1..] + b;
      TitlesAppend(a[1..], b);
    } else {
      assert a + b == b;
    }
  }
}
