/**
 * The older importer of the command-line tool: a pre-pass that closes the
 * tags an XML reader would reject, then one loop over the reader's events
 * that keeps the last opened/closed tag, the bookmark being built, a stack
 * of folder names and the bookmarks imported so far.
 *
 * The XML reader itself (tokenising, entity unescaping, trimming of text)
 * is not part of this model: it is the `reader` parameter, a function from
 * the pre-processed file contents to the events it yields.
 */
module NetscapeBookmarkParser {
  import opened Wrappers
  import opened Collections
  import opened Strings
  import opened Numbers
  import opened Utils
  import opened Bookmarks

  // ---------------------------------------------------------------------
  // Pre-pass
  // ---------------------------------------------------------------------

  /** `<DT>`, `<DD>` and `<p>` become the self-closing `<DT />`, `<DD />` and `<p />`. */
  function Prepass(contents: string): string
  {
    Replace(Replace(Replace(contents, "<DT>", "<DT />"), "<DD>", "<DD />"), "<p>", "<p />")
  }

  /** After the pre-pass no unclosed `<DT>`, `<DD>` or `<p>` is left. */
  lemma PrepassClosesTags(contents: string)
    ensures !Occurs("<DT>", Prepass(contents))
    ensures !Occurs("<DD>", Prepass(contents))
    ensures !Occurs("<p>", Prepass(contents))
  {
    var s1 := Replace(contents, "<DT>", "<DT />");
    var s2 := Replace(s1, "<DD>", "<DD />");
    assert "<DT />"[..4] != "<DT>" by { assert "<DT />"[3] == ' '; }
    assert "<DD />"[..4] != "<DD>" by { assert "<DD />"[3] == ' '; }
    assert "<DD />"[..4] != "<DT>" by { assert "<DD />"[2] == 'D'; }
    assert "<p />"[..3] != "<p>" by { assert "<p />"[2] == ' '; }
    assert "<p />"[..4] != "<DT>" by { assert "<p />"[1] == 'p'; }
    assert "<p />"[..4] != "<DD>" by { assert "<p />"[1] == 'p'; }
    ReplaceKeepsOut(contents, "<DT>", "<DT />", "<DT>");
    ReplaceKeepsOut(s1, "<DD>", "<DD />", "<DT>");
    ReplaceKeepsOut(s1, "<DD>", "<DD />", "<DD>");
    ReplaceKeepsOut(s2, "<p>", "<p />", "<DT>");
    ReplaceKeepsOut(s2, "<p>", "<p />", "<DD>");
    ReplaceKeepsOut(s2, "<p>", "<p />", "<p>");
  }

  /** The pre-pass changes nothing in a file that it already went over. */
  lemma PrepassIdempotent(contents: string)
    ensures Prepass(Prepass(contents)) == Prepass(contents)
  {
    var s := Prepass(contents);
    PrepassClosesTags(contents);
    ReplaceAbsent(s, "<DT>", "<DT />");
    ReplaceAbsent(s, "<DD>", "<DD />");
    ReplaceAbsent(s, "<p>", "<p />");
  }

  /** Text without any tag passes the pre-pass unchanged. */
  lemma PrepassPlain(contents: string)
    requires '<' !in contents
    ensures Prepass(contents) == contents
  {
    ReplaceWithoutLead(contents, "<DT>", "<DT />");
    ReplaceWithoutLead(contents, "<DD>", "<DD />");
    ReplaceWithoutLead(contents, "<p>", "<p />");
  }

  // ---------------------------------------------------------------------
  // Events and state
  // ---------------------------------------------------------------------

  /**
   * What the XML reader yields. `Start` carries the tag's well-formed
   * attributes in document order; `Text` carries the result of unescaping
   * and decoding the text (`None` when that fails); `Other` stands for
   * every event the loop ignores (self-closing tags, comments, CDATA, ...).
   */
  datatype XmlEvent =
    | Start(name: string, attributes: seq<(string, string)>)
    | End(name: string)
    | Text(decoded: Option<string>)
    | Eof
    | Error(position: int, message: string)
    | Other

  /**
   * The loop's variables: `last_event` as (tag name, "open" or "close"),
   * the bookmark being built, the folder-name stack (back = top) and the
   * bookmarks imported so far.
   */
  datatype State = State(lastEvent: (string, string), pending: Bookmark, folders: seq<string>, bookmarks: seq<Bookmark>)

  function Initial(): State
  {
    State(("", ""), DefaultBookmark(), [], [])
  }

  const UnwrapNone: string := "called `Option::unwrap()` on a `None` value"
  const UnwrapErr: string := "called `Result::unwrap()` on an `Err` value"

  predicate IsHeadingName(name: string) {
    name == "TITLE" || name == "H1" || name == "H3"
  }

  /** The value stored under `key`, or "" when there is none. */
  function ValueOr(attrs: map<string, string>, key: string): string
  {
    if key in attrs then attrs[key] else ""
  }

  /** Where an anchor's tags come from: the pieces of `TAGS`, then the folder names when wanted. */
  function TagSources(attrs: map<string, string>, folders: seq<string>, appendFolderTags: bool): seq<string>
  {
    Split(ValueOr(attrs, "TAGS"), ',') + (if appendFolderTags then folders else [])
  }

  /**
   * The tags of an anchor: the non-empty pieces of its `TAGS` attribute,
   * then, when folder tags are wanted, the non-empty folder names from the
   * bottom of the stack to the top; duplicates dropped after their first
   * occurrence, so the tags come in the order they first occur there.
   */
  function AnchorTags(attrs: map<string, string>, folders: seq<string>, appendFolderTags: bool): (tags: seq<string>)
    ensures NoDup(tags)
    ensures forall x :: x in tags <==> x != "" && x in TagSources(attrs, folders, appendFolderTags)
    ensures InFirstOccurrenceOrder(tags, TagSources(attrs, folders, appendFolderTags))
  {
    var src := TagSources(attrs, folders, appendFolderTags);
    DedupElements(NonEmpty(src));
    DedupKeepsOrder(src);
    Dedup(NonEmpty(src))
  }

  /** De-duplicating the non-empty strings of `src` keeps them in the order of their first occurrence in `src`. */
  lemma DedupKeepsOrder(src: seq<string>)
    ensures InFirstOccurrenceOrder(Dedup(NonEmpty(src)), src)
  {
    var kept := NonEmpty(src);
    var d := Dedup(kept);
    DedupOrder(kept);
    DedupElements(kept);
    forall i, j | 0 <= i < j < |d|
      ensures d[i] in src && d[j] in src && FirstIndex(src, d[i]) < FirstIndex(src, d[j])
    {
      assert d[i] in kept && d[j] in kept;
      NonEmptyFirstIndex(src, d[i], d[j]);
    }
  }

  /** A `Start` of an `A` tag: the attributes fill in the pending bookmark. */
  function OpenAnchor(st: State, attrs: seq<(string, string)>, appendFolderTags: bool, now: int): Outcome<State>
  {
    var m := LastWins(attrs);
    if "HREF" !in m || "ADD_DATE" !in m then Panicked(UnwrapNone)
    else
      var added := ParseI64(m["ADD_DATE"]);
      var modified := ParseI64(if "LAST_MODIFIED" in m then m["LAST_MODIFIED"] else FormatInt(now));
      if added.None? || modified.None? then Panicked(UnwrapErr)
      else
        var pending := st.pending.(link := Trim(m["HREF"]),
                                   tags := TagList(AnchorTags(m, st.folders, appendFolderTags)),
                                   addedAt := added.value,
                                   lastModified := modified.value);
        Done(st.(lastEvent := ("A", "open"), pending := pending))
  }

  /** A `Text` event, dispatched on the last tag opened or closed. */
  function TextStep(st: State, decoded: Option<string>): Outcome<State>
  {
    var (tag, phase) := st.lastEvent;
    if IsHeadingName(tag) && phase == "open" then
      match decoded
      case None => Panicked(UnwrapErr)
      case Some(t) => Done(st.(folders := st.folders + [t]))
    else if tag == "A" && phase == "open" then
      match decoded
      case None => Panicked(UnwrapErr)
      case Some(t) =>
        Done(st.(bookmarks := st.bookmarks + [st.pending.(name := Squeeze(Trim(t)))], pending := DefaultBookmark()))
    else if tag == "A" && phase == "close" then
      if st.bookmarks == [] then Panicked(UnwrapNone)
      else
        var last := st.bookmarks[|st.bookmarks| - 1];
        Done(st.(bookmarks := st.bookmarks[..|st.bookmarks| - 1] + [last.(description := decoded.GetOr(""))]))
    else Done(st)
  }

  /** One pass of the loop body for an event other than `Eof`. */
  function Step(st: State, ev: XmlEvent, appendFolderTags: bool, now: int): Outcome<State>
  {
    match ev
    case Start(name, attrs) =>
      if IsHeadingName(name) then Done(st.(lastEvent := (name, "open")))
      else if name == "A" then OpenAnchor(st, attrs, appendFolderTags, now)
      else Done(st)
    case End(name) =>
      if name == "DL" then Done(st.(folders := if st.folders == [] then [] else st.folders[..|st.folders| - 1]))
      else if name == "A" then Done(st.(lastEvent := ("A", "close")))
      else Done(st)
    case Text(decoded) => TextStep(st, decoded)
    case Error(position, message) =>
      Panicked("Error at position " + FormatInt(position) + ": " + message)
    case _ => Done(st)
  }

  /**
   * The loop from state `st` over `events`: it ends at the first `Eof` (or
   * when the events run out) with the bookmarks imported so far.
   */
  function Run(events: seq<XmlEvent>, st: State, appendFolderTags: bool, now: int): Outcome<seq<Bookmark>>
    decreases |events|
  {
    if events == [] || events[0].Eof? then Done(st.bookmarks)
    else
      match Step(st, events[0], appendFolderTags, now)
      case Done(next) => Run(events[1..], next, appendFolderTags, now)
      case Failed(e) => Failed(e)
      case Panicked(m) => Panicked(m)
  }

  /** The loop at event `i`: one step, then the loop from the next event on. */
  lemma RunAt(events: seq<XmlEvent>, i: nat, st: State, appendFolderTags: bool, now: int)
    requires i < |events|
    ensures events[i].Eof? ==> Run(events[i..], st, appendFolderTags, now) == Done(st.bookmarks)
    ensures var step := Step(st, events[i], appendFolderTags, now);
      !events[i].Eof? ==> (Run(events[i..], st, appendFolderTags, now) ==
        match step
        case Done(next) => Run(events[i + 1..], next, appendFolderTags, now)
        case Failed(e) => Failed(e)
        case Panicked(m) => Panicked(m))
  {
    assert events[i..][0] == events[i] && events[i..][1..] == events[i + 1..];
  }

  /**
   * `parse_netscape_bookmark_file`: the file's contents (or the error
   * reading it), pre-processed and read into events, then the loop.
   */
  function ParseFile(path: string, file: Result<string>, reader: string -> seq<XmlEvent>,
                     appendFolderTags: bool, now: int): Outcome<seq<Bookmark>>
  {
    match file
    case Err(e) => Failed("Failed to read file " + path + "\n" + e)
    case Ok(contents) => Run(reader(Prepass(contents)), Initial(), appendFolderTags, now)
  }

  // ---------------------------------------------------------------------
  // The loop
  // ---------------------------------------------------------------------

  method ParseNetscapeBookmarkFile(path: string, file: Result<string>, reader: string -> seq<XmlEvent>,
                                   appendFolderTags: bool, now: int) returns (r: Outcome<seq<Bookmark>>)
    ensures r == ParseFile(path, file, reader, appendFolderTags, now)
  {
    if file.Err? {
      return Failed("Failed to read file " + path + "\n" + file.error);
    }
    var contents := Prepass(file.value);
    var events := reader(contents);

    var lastEvent: (string, string) := ("", "");
    var newBookmark := DefaultBookmark();
    var tags: seq<string> := [];
    var bookmarks: seq<Bookmark> := [];

    var i := 0;
    while i < |events|
      invariant 0 <= i <= |events|
      invariant Run(events, Initial(), appendFolderTags, now) ==
        Run(events[i..], State(lastEvent, newBookmark, tags, bookmarks), appendFolderTags, now)
    {
      RunAt(events, i, State(lastEvent, newBookmark, tags, bookmarks), appendFolderTags, now);
      if events[i].Eof? {
        return Done(bookmarks);
      }
      var next := EventStep(State(lastEvent, newBookmark, tags, bookmarks), events[i], appendFolderTags, now);
      if !next.Done? {
        return if next.Failed? then Failed(next.error) else Panicked(next.reason);
      }
      lastEvent, newBookmark, tags, bookmarks := next.value.lastEvent, next.value.pending, next.value.folders, next.value.bookmarks;
      i := i + 1;
    }
    return Done(bookmarks);
  }

  /** The body of the loop for one event other than `Eof`, on the loop's variables. */
  method EventStep(st: State, ev: XmlEvent, appendFolderTags: bool, now: int) returns (r: Outcome<State>)
    requires !ev.Eof?
    ensures r == Step(st, ev, appendFolderTags, now)
  {
    var lastEvent, tags := st.lastEvent, st.folders;
    match ev {
      case Start(name, attrs) =>
        if IsHeadingName(name) {
          lastEvent := (name, "open");
        } else if name == "A" {
          r := OpenAnchorEvent(st, attrs, appendFolderTags, now);
          return;
        }
      case End(name) =>
        if name == "DL" {
          if tags != [] {
            tags := tags[..|tags| - 1];
          }
        } else if name == "A" {
          lastEvent := (name, "close");
        }
      case Text(decoded) =>
        r := TextEvent(st, decoded);
        return;
      case Error(position, message) =>
        return Panicked("Error at position " + FormatInt(position) + ": " + message);
      case Other =>
    }
    return Done(st.(lastEvent := lastEvent, folders := tags));
  }

  /** The `A` arm of the loop's `Start` case, on the loop's variables. */
  method OpenAnchorEvent(st: State, attrs: seq<(string, string)>, appendFolderTags: bool, now: int)
    returns (r: Outcome<State>)
    ensures r == OpenAnchor(st, attrs, appendFolderTags, now)
  {
    var lastEvent := ("A", "open");
    var newBookmark := st.pending;
    var attributes := LastWins(attrs);
    var bkTags := NonEmpty(Split(ValueOr(attributes, "TAGS"), ','));
    if appendFolderTags {
      var folderTags := NonEmpty(st.folders);
      bkTags := bkTags + folderTags;
    }
    NonEmptyAppend(Split(ValueOr(attributes, "TAGS"), ','), if appendFolderTags then st.folders else []);
    assert bkTags == NonEmpty(TagSources(attributes, st.folders, appendFolderTags));
    ghost var tags := AnchorTags(attributes, st.folders, appendFolderTags);
    assert Dedup(bkTags) == tags;
    if "HREF" !in attributes {
      return Panicked(UnwrapNone);
    }
    newBookmark := newBookmark.(link := Trim(attributes["HREF"]));
    newBookmark := newBookmark.(tags := TagList(Dedup(bkTags)));
    if "ADD_DATE" !in attributes {
      return Panicked(UnwrapNone);
    }
    var added := ParseI64(attributes["ADD_DATE"]);
    if added.None? {
      return Panicked(UnwrapErr);
    }
    newBookmark := newBookmark.(addedAt := added.value);
    var modified := ParseI64(if "LAST_MODIFIED" in attributes then attributes["LAST_MODIFIED"] else FormatInt(now));
    if modified.None? {
      return Panicked(UnwrapErr);
    }
    newBookmark := newBookmark.(lastModified := modified.value);
    return Done(st.(lastEvent := lastEvent, pending := newBookmark));
  }

  /** The loop's `Text` case, on the loop's variables. */
  method TextEvent(st: State, decoded: Option<string>) returns (r: Outcome<State>)
    ensures r == TextStep(st, decoded)
  {
    var lastEvent, newBookmark, tags, bookmarks := st.lastEvent, st.pending, st.folders, st.bookmarks;
    if IsHeadingName(lastEvent.0) && lastEvent.1 == "open" {
      if decoded.None? {
        return Panicked(UnwrapErr);
      }
      tags := tags + [decoded.value];
    } else if lastEvent == ("A", "open") {
      if decoded.None? {
        return Panicked(UnwrapErr);
      }
      newBookmark := newBookmark.(name := Squeeze(Trim(decoded.value)));
      bookmarks := bookmarks + [newBookmark];
      newBookmark := DefaultBookmark();
    } else if lastEvent == ("A", "close") {
      if bookmarks == [] {
        return Panicked(UnwrapNone);
      }
      var bk := bookmarks[|bookmarks| - 1];
      bookmarks := bookmarks[..|bookmarks| - 1];
      bk := bk.(description := decoded.GetOr(""));
      bookmarks := bookmarks + [bk];
    }
    return Done(State(lastEvent, newBookmark, tags, bookmarks));
  }

  // ---------------------------------------------------------------------
  // What each event does
  // ---------------------------------------------------------------------

  /**
   * An anchor's `Start`: it panics exactly when `HREF` or `ADD_DATE` is
   * missing or a date is not a 64-bit integer; otherwise the pending
   * bookmark gets the trimmed `HREF`, the parsed dates (the clock when
   * `LAST_MODIFIED` is missing) and the anchor's tags (each non-empty
   * `TAGS` piece and folder name once, in the order of its first
   * occurrence), and nothing else of the state changes.
   */
  lemma OpenAnchorSpec(st: State, attrs: seq<(string, string)>, appendFolderTags: bool, now: int)
    requires InI64(now)
    ensures var m := LastWins(attrs);
      OpenAnchor(st, attrs, appendFolderTags, now).Done? <==>
        && "HREF" in m && "ADD_DATE" in m && ParseI64(m["ADD_DATE"]).Some?
        && ("LAST_MODIFIED" in m ==> ParseI64(m["LAST_MODIFIED"]).Some?)
    ensures var m := LastWins(attrs);
      var r := OpenAnchor(st, attrs, appendFolderTags, now);
      r.Done? ==>
        && r.value.lastEvent == ("A", "open")
        && r.value.folders == st.folders && r.value.bookmarks == st.bookmarks
        && r.value.pending.name == st.pending.name && r.value.pending.description == st.pending.description
        && r.value.pending.link == Trim(m["HREF"])
        && r.value.pending.addedAt == ParseI64(m["ADD_DATE"]).value
        && r.value.pending.lastModified ==
             (if "LAST_MODIFIED" in m then ParseI64(m["LAST_MODIFIED"]).value else now)
        && r.value.pending.tags.items == AnchorTags(m, st.folders, appendFolderTags)
    ensures var m := LastWins(attrs);
      var r := OpenAnchor(st, attrs, appendFolderTags, now);
      var tags := AnchorTags(m, st.folders, appendFolderTags);
      var src := TagSources(m, st.folders, appendFolderTags);
      r.Done? ==>
        && NoDup(tags)
        && (forall x :: x in tags <==> x != "" && x in src)
        && InFirstOccurrenceOrder(tags, src)
  {
    ParseFormat(now);
  }

  /** Text inside an opened `TITLE`, `H1` or `H3` goes on top of the folder stack. */
  lemma HeadingTextPushes(st: State, decoded: Option<string>, appendFolderTags: bool, now: int)
    requires IsHeadingName(st.lastEvent.0) && st.lastEvent.1 == "open"
    ensures decoded.None? ==> Step(st, Text(decoded), appendFolderTags, now).Panicked?
    ensures decoded.Some? ==> Step(st, Text(decoded), appendFolderTags, now) == Done(st.(folders := st.folders + [decoded.value]))
  {
  }

  /** The end of a `DL` drops the top folder name; with no folder open it changes nothing. */
  lemma EndListPops(st: State, appendFolderTags: bool, now: int)
    ensures var r := Step(st, End("DL"), appendFolderTags, now);
      && r.Done?
      && r.value.lastEvent == st.lastEvent && r.value.pending == st.pending && r.value.bookmarks == st.bookmarks
      && (st.folders == [] ==> r.value.folders == [])
      && (st.folders != [] ==> r.value.folders + [st.folders[|st.folders| - 1]] == st.folders)
  {
    if st.folders != [] {
      assert st.folders[..|st.folders| - 1] + [st.folders[|st.folders| - 1]] == st.folders;
    }
  }

  /**
   * Text inside an opened anchor appends exactly one bookmark: the pending
   * one, named by the squeezed, trimmed text; the pending bookmark starts
   * over.
   */
  lemma AnchorTextAppends(st: State, t: string, appendFolderTags: bool, now: int)
    requires st.lastEvent == ("A", "open")
    ensures var r := Step(st, Text(Some(t)), appendFolderTags, now);
      && r.Done?
      && |r.value.bookmarks| == |st.bookmarks| + 1
      && r.value.bookmarks[..|st.bookmarks|] == st.bookmarks
      && var b := r.value.bookmarks[|st.bookmarks|];
      && b.name == Squeeze(Trim(t))
      && b.link == st.pending.link && b.tags == st.pending.tags && b.description == st.pending.description
      && b.addedAt == st.pending.addedAt && b.lastModified == st.pending.lastModified
      && r.value.pending == DefaultBookmark()
      && r.value.lastEvent == st.lastEvent && r.value.folders == st.folders
  {
  }

  /**
   * Text after a closed anchor replaces the description of the last
   * bookmark and nothing else; with no bookmark yet it panics.
   */
  lemma DescriptionReplaces(st: State, decoded: Option<string>, appendFolderTags: bool, now: int)
    requires st.lastEvent == ("A", "close")
    ensures st.bookmarks == [] ==> Step(st, Text(decoded), appendFolderTags, now).Panicked?
    ensures var r := Step(st, Text(decoded), appendFolderTags, now);
      var n := |st.bookmarks|;
      st.bookmarks != [] ==>
        && r.Done?
        && |r.value.bookmarks| == n
        && r.value.bookmarks[..n - 1] == st.bookmarks[..n - 1]
        && r.value.bookmarks[n - 1] == st.bookmarks[n - 1].(description := decoded.GetOr(""))
        && r.value.lastEvent == st.lastEvent && r.value.pending == st.pending && r.value.folders == st.folders
  {
  }

  /** The events the loop passes over without acting. */
  predicate Ignored(st: State, ev: XmlEvent)
  {
    || ev.Other?
    || (ev.Start? && !IsHeadingName(ev.name) && ev.name != "A")
    || (ev.End? && ev.name != "DL" && ev.name != "A")
    || (ev.Text? && !(IsHeadingName(st.lastEvent.0) && st.lastEvent.1 == "open")
          && st.lastEvent != ("A", "open") && st.lastEvent != ("A", "close"))
  }

  lemma IgnoredKeepsState(st: State, ev: XmlEvent, appendFolderTags: bool, now: int)
    requires Ignored(st, ev)
    ensures Step(st, ev, appendFolderTags, now) == Done(st)
  {
  }

  // ---------------------------------------------------------------------
  // What the loop keeps
  // ---------------------------------------------------------------------

  /** No whitespace at either end. */
  predicate Trimmed(s: string) {
    s == [] || (!IsWhitespace(s[0]) && !IsWhitespace(s[|s| - 1]))
  }

  /** A bookmark under construction: distinct tags, a trimmed link. */
  predicate Tidy(b: Bookmark) {
    NoDup(b.tags.items) && Trimmed(b.link)
  }

  /** An imported bookmark: tidy, with a trimmed name whose whitespace is single spaces. */
  predicate Imported(b: Bookmark) {
    Tidy(b) && Trimmed(b.name) && Squeezed(b.name)
  }

  /** Every bookmark of the list is an imported one. */
  predicate AllImported(bs: seq<Bookmark>) {
    forall k :: 0 <= k < |bs| ==> Imported(bs[k])
  }

  predicate Consistent(st: State) {
    Tidy(st.pending) && AllImported(st.bookmarks)
  }

  lemma AllImportedAppend(bs: seq<Bookmark>, b: Bookmark)
    requires AllImported(bs) && Imported(b)
    ensures AllImported(bs + [b])
  {
    var after := bs + [b];
    forall k | 0 <= k < |after| ensures Imported(after[k]) {
      if k < |bs| { assert after[k] == bs[k]; }
    }
  }

  lemma AllImportedReplaceLast(bs: seq<Bookmark>, b: Bookmark)
    requires bs != [] && AllImported(bs) && Imported(b)
    ensures AllImported(bs[..|bs| - 1] + [b])
  {
    var after := bs[..|bs| - 1] + [b];
    forall k | 0 <= k < |after| ensures Imported(after[k]) {
      if k < |bs| - 1 { assert after[k] == bs[k]; }
    }
  }

  /** An anchor's `Start` leaves a tidy pending bookmark and the imported ones as they were. */
  lemma OpenAnchorTidy(st: State, attrs: seq<(string, string)>, appendFolderTags: bool, now: int)
    requires OpenAnchor(st, attrs, appendFolderTags, now).Done?
    ensures var next := OpenAnchor(st, attrs, appendFolderTags, now).value;
      Tidy(next.pending) && next.bookmarks == st.bookmarks
  {
  }

  lemma TextConsistent(st: State, decoded: Option<string>)
    requires Consistent(st)
    requires TextStep(st, decoded).Done?
    ensures Consistent(TextStep(st, decoded).value)
  {
    if IsHeadingName(st.lastEvent.0) && st.lastEvent.1 == "open" {
    } else if st.lastEvent == ("A", "open") {
      var t := decoded.value;
      SqueezeEnds(t);
      SqueezeIsSqueezed(Trim(t));
      AllImportedAppend(st.bookmarks, st.pending.(name := Squeeze(Trim(t))));
    } else if st.lastEvent == ("A", "close") {
      var last := st.bookmarks[|st.bookmarks| - 1];
      AllImportedReplaceLast(st.bookmarks, last.(description := decoded.GetOr("")));
    }
  }

  lemma StepConsistent(st: State, ev: XmlEvent, appendFolderTags: bool, now: int)
    requires Consistent(st)
    requires Step(st, ev, appendFolderTags, now).Done?
    ensures Consistent(Step(st, ev, appendFolderTags, now).value)
  {
    match ev {
      case Start(name, attrs) =>
        if !IsHeadingName(name) && name == "A" {
          OpenAnchorTidy(st, attrs, appendFolderTags, now);
        }
      case Text(decoded) => TextConsistent(st, decoded);
      case _ =>
    }
  }

  lemma {:induction false} RunConsistent(events: seq<XmlEvent>, st: State, appendFolderTags: bool, now: int)
    requires Consistent(st)
    requires Run(events, st, appendFolderTags, now).Done?
    ensures AllImported(Run(events, st, appendFolderTags, now).value)
    decreases |events|
  {
    if events != [] && !events[0].Eof? {
      StepConsistent(st, events[0], appendFolderTags, now);
      RunConsistent(events[1..], Step(st, events[0], appendFolderTags, now).value, appendFolderTags, now);
    }
  }

  /**
   * Every imported bookmark has distinct tags, a link and a name without
   * whitespace at either end, and a name whose whitespace runs are single
   * spaces.
   */
  lemma ImportedBookmarksTidy(path: string, file: Result<string>, reader: string -> seq<XmlEvent>,
                              appendFolderTags: bool, now: int)
    requires ParseFile(path, file, reader, appendFolderTags, now).Done?
    ensures var bs := ParseFile(path, file, reader, appendFolderTags, now).value;
      forall k :: 0 <= k < |bs| ==> Imported(bs[k])
  {
    RunConsistent(reader(Prepass(file.value)), Initial(), appendFolderTags, now);
  }

  /**
   * A step keeps every bookmark already imported, except that the last one
   * may get a new description; nothing else of it changes.
   */
  predicate Keeps(before: seq<Bookmark>, after: seq<Bookmark>) {
    && |after| >= |before|
    && (forall k :: 0 <= k < |before| - 1 ==> after[k] == before[k])
    && (before != [] ==>
          after[|before| - 1] == before[|before| - 1].(description := after[|before| - 1].description))
  }

  lemma KeepsAppend(bs: seq<Bookmark>, b: Bookmark)
    ensures Keeps(bs, bs + [b])
  {
    var after := bs + [b];
    forall k | 0 <= k < |bs| ensures after[k] == bs[k] {
    }
    if bs != [] {
      var last := bs[|bs| - 1];
      assert after[|bs| - 1] == last;
      assert last.(description := last.description) == last;
    }
  }

  lemma KeepsReplaceLast(bs: seq<Bookmark>, d: string)
    requires bs != []
    ensures var n := |bs|; Keeps(bs, bs[..n - 1] + [bs[n - 1].(description := d)])
  {
    var n := |bs|;
    var after := bs[..n - 1] + [bs[n - 1].(description := d)];
    forall k | 0 <= k < n - 1 ensures after[k] == bs[k] {
      assert after[k] == bs[..n - 1][k];
    }
    assert after[n - 1] == bs[n - 1].(description := d);
  }

  lemma KeepsSame(bs: seq<Bookmark>)
    ensures Keeps(bs, bs)
  {
    if bs != [] {
      var last := bs[|bs| - 1];
      assert last.(description := last.description) == last;
    }
  }

  lemma TextKeeps(st: State, decoded: Option<string>)
    requires TextStep(st, decoded).Done?
    ensures var after := TextStep(st, decoded).value.bookmarks;
      Keeps(st.bookmarks, after) && |after| <= |st.bookmarks| + 1
  {
    var after := TextStep(st, decoded).value.bookmarks;
    if IsHeadingName(st.lastEvent.0) && st.lastEvent.1 == "open" {
      assert after == st.bookmarks;
      KeepsSame(st.bookmarks);
    } else if st.lastEvent == ("A", "open") {
      var b := st.pending.(name := Squeeze(Trim(decoded.value)));
      assert after == st.bookmarks + [b];
      KeepsAppend(st.bookmarks, b);
    } else if st.lastEvent == ("A", "close") {
      var n := |st.bookmarks|;
      assert after == st.bookmarks[..n - 1] + [st.bookmarks[n - 1].(description := decoded.GetOr(""))];
      KeepsReplaceLast(st.bookmarks, decoded.GetOr(""));
    } else {
      assert after == st.bookmarks;
      KeepsSame(st.bookmarks);
    }
  }

  /**
   * An event keeps every imported bookmark, except that the last one may
   * get a new description, and appends at most one.
   */
  lemma StepKeeps(st: State, ev: XmlEvent, appendFolderTags: bool, now: int)
    requires Step(st, ev, appendFolderTags, now).Done?
    ensures var after := Step(st, ev, appendFolderTags, now).value.bookmarks;
      Keeps(st.bookmarks, after) && |after| <= |st.bookmarks| + 1
  {
    match ev {
      case Text(decoded) => TextKeeps(st, decoded);
      case Start(name, attrs) =>
        if !IsHeadingName(name) && name == "A" {
          OpenAnchorTidy(st, attrs, appendFolderTags, now);
        }
        KeepsSame(st.bookmarks);
      case _ => KeepsSame(st.bookmarks);
    }
  }

  lemma KeepsTransitive(a: seq<Bookmark>, b: seq<Bookmark>, c: seq<Bookmark>)
    requires Keeps(a, b) && Keeps(b, c)
    ensures Keeps(a, c)
  {
    if a != [] {
      var n := |a|;
      if |b| > n {
        assert c[n - 1] == b[n - 1];
      }
    }
  }

  /**
   * A run never drops or reorders a bookmark imported before it, and
   * changes at most the description of the last one.
   */
  lemma {:induction false} RunKeeps(events: seq<XmlEvent>, st: State, appendFolderTags: bool, now: int)
    requires Run(events, st, appendFolderTags, now).Done?
    ensures Keeps(st.bookmarks, Run(events, st, appendFolderTags, now).value)
    decreases |events|
  {
    if events != [] && !events[0].Eof? {
      var next := Step(st, events[0], appendFolderTags, now).value;
      StepKeeps(st, events[0], appendFolderTags, now);
      RunKeeps(events[1..], next, appendFolderTags, now);
      KeepsTransitive(st.bookmarks, next.bookmarks, Run(events, st, appendFolderTags, now).value);
    } else {
      KeepsSame(st.bookmarks);
    }
  }

  // ---------------------------------------------------------------------
  // One bookmark per anchor text
  // ---------------------------------------------------------------------

  /** `last_event` after an event the loop goes past without panicking. */
  function NextLastEvent(last: (string, string), ev: XmlEvent): (string, string)
  {
    match ev
    case Start(name, _) => if IsHeadingName(name) || name == "A" then (name, "open") else last
    case End(name) => if name == "A" then ("A", "close") else last
    case _ => last
  }

  /** The text of the event when it is read while an anchor is the last tag opened: none or one. */
  function AnchorTextOf(last: (string, string), ev: XmlEvent): (t: seq<string>)
    ensures |t| <= 1
  {
    if last == ("A", "open") && ev.Text? && ev.decoded.Some? then [ev.decoded.value] else []
  }

  /**
   * The texts read while an anchor is the last tag opened, in order, up to
   * the first `Eof`, when `last` is the last tag opened or closed before
   * `events`.
   */
  function AnchorTexts(events: seq<XmlEvent>, last: (string, string)): seq<string>
    decreases |events|
  {
    if events == [] || events[0].Eof? then []
    else AnchorTextOf(last, events[0]) + AnchorTexts(events[1..], NextLastEvent(last, events[0]))
  }

  /**
   * What one event does to the register and the names: `last_event` moves
   * on as `NextLastEvent` says, and an anchor text appends the name made of
   * it while every other event keeps the names as they are.
   */
  lemma StepAppends(st: State, ev: XmlEvent, appendFolderTags: bool, now: int)
    requires Step(st, ev, appendFolderTags, now).Done?
    ensures var next := Step(st, ev, appendFolderTags, now).value;
      && next.lastEvent == NextLastEvent(st.lastEvent, ev)
      && Names(next.bookmarks) == Names(st.bookmarks) + Titles(AnchorTextOf(st.lastEvent, ev))
  {
    StepLastEvent(st, ev, appendFolderTags, now);
    assert Names(st.bookmarks) + Titles([]) == Names(st.bookmarks);
    match ev {
      case Start(name, attrs) =>
        if !IsHeadingName(name) && name == "A" {
          OpenAnchorTidy(st, attrs, appendFolderTags, now);
        }
      case Text(decoded) => TextAppends(st, decoded);
      case _ =>
    }
  }

  lemma StepLastEvent(st: State, ev: XmlEvent, appendFolderTags: bool, now: int)
    requires Step(st, ev, appendFolderTags, now).Done?
    ensures Step(st, ev, appendFolderTags, now).value.lastEvent == NextLastEvent(st.lastEvent, ev)
  {
    match ev {
      case Text(decoded) =>
        assert TextStep(st, decoded).value.lastEvent == st.lastEvent;
      case _ =>
    }
  }

  lemma TextAppends(st: State, decoded: Option<string>)
    requires TextStep(st, decoded).Done?
    ensures Names(TextStep(st, decoded).value.bookmarks) ==
      Names(st.bookmarks) + Titles(AnchorTextOf(st.lastEvent, Text(decoded)))
  {
    var after := TextStep(st, decoded).value.bookmarks;
    if IsHeadingName(st.lastEvent.0) && st.lastEvent.1 == "open" {
      assert after == st.bookmarks;
    } else if st.lastEvent == ("A", "open") {
      var b := st.pending.(name := Squeeze(Trim(decoded.value)));
      assert after == st.bookmarks + [b];
      NamesAppend(st.bookmarks, b);
    } else if st.lastEvent == ("A", "close") {
      NamesRedescribe(st.bookmarks, decoded.GetOr(""));
    } else {
      assert after == st.bookmarks;
    }
  }


  /**
   * A run appends one bookmark per anchor text, in the order the texts are
   * read, each named by its squeezed, trimmed text; the names of the
   * bookmarks imported before stay as they are.
   */
  lemma {:induction false} RunAnchorTexts(events: seq<XmlEvent>, st: State, appendFolderTags: bool, now: int)
    requires Run(events, st, appendFolderTags, now).Done?
    ensures Names(Run(events, st, appendFolderTags, now).value) ==
      Names(st.bookmarks) + Titles(AnchorTexts(events, st.lastEvent))
    decreases |events|
  {
    if events != [] && !events[0].Eof? {
      var next := RunFront(events, st, appendFolderTags, now);
      RunAnchorTexts(events[1..], next, appendFolderTags, now);
      TitlesAppend(AnchorTextOf(st.lastEvent, events[0]), AnchorTexts(events[1..], next.lastEvent));
    }
  }

  /** The loop's first event: one step that does not panic, then the loop from the next state. */
  lemma RunFront(events: seq<XmlEvent>, st: State, appendFolderTags: bool, now: int) returns (next: State)
    requires events != [] && !events[0].Eof?
    requires Run(events, st, appendFolderTags, now).Done?
    ensures Run(events[1..], next, appendFolderTags, now).Done?
    ensures Run(events, st, appendFolderTags, now) == Run(events[1..], next, appendFolderTags, now)
    ensures AnchorTexts(events, st.lastEvent) ==
      AnchorTextOf(st.lastEvent, events[0]) + AnchorTexts(events[1..], next.lastEvent)
    ensures Names(next.bookmarks) == Names(st.bookmarks) + Titles(AnchorTextOf(st.lastEvent, events[0]))
  {
    next := Step(st, events[0], appendFolderTags, now).value;
    StepAppends(st, events[0], appendFolderTags, now);
  }

  /**
   * `parse_netscape_bookmark_file` imports one bookmark per text read
   * inside an anchor of the pre-processed file, in order, each named by
   * its squeezed, trimmed text.
   */
  lemma ImportedBookmarkNames(path: string, file: Result<string>, reader: string -> seq<XmlEvent>,
                              appendFolderTags: bool, now: int)
    requires ParseFile(path, file, reader, appendFolderTags, now).Done?
    ensures file.Ok?
    ensures Names(ParseFile(path, file, reader, appendFolderTags, now).value) ==
      Titles(AnchorTexts(reader(Prepass(file.value)), ("", "")))
  {
    RunAnchorTexts(reader(Prepass(file.value)), Initial(), appendFolderTags, now);
  }
}
