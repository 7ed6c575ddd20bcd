# bkmrk — a verified model of the Netscape bookmark importers

bkmrk is a command-line bookmark manager with a companion library. It imports
bookmarks from the Netscape bookmark file format that browsers export. This
project models the importing core and proves properties of it in Dafny:

- **The library parser**, `bkmrk-lib/src/netscape_parser.rs`. A grammar turns
  the file into a tree of nodes. `make_element` and `get_attributes` turn the
  nodes into `Element`s. `get_bookmarks` walks the elements:
  - a heading (`TITLE`, `H1`, `H3`) adds a label for everything after it at
    its level;
  - a `DL` is walked with the labels in scope;
  - every anchor `A` becomes a bookmark.

  The grammar itself is not part of this model. `ParseStr` takes its result as
  input, either the tree or a syntax error.
- **The command-line tool's streaming importer**,
  `src/netscape_bookmark_parser.rs`. First a pre-pass makes `<DT>`, `<DD>` and
  `<p>` self-closing. Then one loop reads XML events and updates:
  - the last tag opened or closed;
  - a pending bookmark;
  - a stack of folder names;
  - the list of imported bookmarks.

  The XML reader is not part of this model. It is the `reader` parameter, which
  maps the pre-processed text to the events it yields. The file read is also
  not modelled: its result, the contents or an error, is a parameter.
- **The value types:**
  - `Element` and the `Tags` enum (`bkmrk-lib/src/element.rs`);
  - `Bookmark`, `TagList` and the `%`-placeholder `format` of both crates
    (`src/bookmark.rs`, `bkmrk-lib/src/bookmark.rs`);
  - `SiteType` with its text forms (`bkmrk-lib/src/site_metadata.rs`).
- **The two helpers** of `src/utils/mod.rs`:
  - `squeeze_whitespaces`: every run of Unicode whitespace becomes one space;
  - `get_date_string`: a UTC timestamp as `%Y-%m-%d %H:%M:%S`. It is modelled
    with the civil-from-days calendar algorithm over chrono's supported range.

Panics are modelled with the `Outcome` type, whose cases are `Done`, `Failed`
and `Panicked`. An `unwrap` of nothing or an `unreachable!()` gives
`Panicked`. An error returned through `?` gives `Failed`. The operations
therefore need no preconditions for inputs the program handles by panicking.

The library's `get_bookmarks` fills a record with the anchor's title and its
trailing text as an optional description. The `Bookmark` type of
`bkmrk-lib/src/bookmark.rs` has `name` and `description: String` instead, so
the model stores:
- the title as `name`;
- the trailing text, or `""` when there is none, as `description`.

Files:
- `wrappers.dfy`: `Option`, `Result`, `Outcome`.
- `collections.dfy`: first-occurrence de-duplication, and the map built by
  successive `HashMap::insert`s.
- `strings.dfy`: Rust's `trim`, `split`, `join` and `replace`.
- `numbers.dfy`: `str::parse::<i64>` with its error messages, and integer
  formatting.
- `utils.dfy`, `site_metadata.dfy`, `element.dfy`, `bookmark.dfy` (shared
  record, library `format`), `cli_bookmark.dfy` (command-line `format`).
- `netscape_parser.dfy`: the library parser.
- `netscape_bookmark_parser.dfy`: the streaming importer.

## Model

| member | source | states |
|---|---|---|
| Collections.Dedup | src/netscape_bookmark_parser.rs:75 | itertools' `unique()`, and the set collect of bkmrk-lib/src/netscape_parser.rs:76-80; no `ensures` of its own; `DedupElements`, `DedupOrder` and `DedupNoDup` state what it keeps and in which order |
| Collections.DedupElements | bkmrk-lib/src/netscape_parser.rs:76-80 | collecting through a set keeps every element exactly once and adds none |
| Collections.DedupOrder | src/netscape_bookmark_parser.rs:75 | `unique()` keeps elements in the order of their first occurrences |
| Collections.DedupNoDup | src/netscape_bookmark_parser.rs:75 | `unique()` changes nothing in a list without duplicates |
| Collections.LastWins | bkmrk-lib/src/netscape_parser.rs:153-165 | the map built by successive `HashMap::insert`s (also the attribute collect of src/netscape_bookmark_parser.rs:43-52); no `ensures` of its own; `LastWinsKeys` and `LastWinsValues` give its keys and values |
| Collections.LastWinsKeys | bkmrk-lib/src/netscape_parser.rs:153-165 | inserting pairs one by one into a map gives exactly the inserted keys |
| Collections.LastWinsValues | bkmrk-lib/src/netscape_parser.rs:153-165 | a key maps to the value of its last insertion |
| Strings.Trim | src/netscape_bookmark_parser.rs:73 | `trim` leaves no whitespace at either end |
| Strings.TrimSlice | src/netscape_bookmark_parser.rs:73 | `trim` returns a contiguous part of the text, starting after its leading whitespace |
| Strings.TrimSurround | src/netscape_bookmark_parser.rs:73 | what `trim` drops on either side is whitespace only |
| Strings.TrimPadded | bkmrk-lib/src/element.rs:39 | whitespace around a text does not change its trim |
| Strings.Split | bkmrk-lib/src/netscape_parser.rs:67 | `split(',')` gives at least one piece, and no piece holds the separator |
| Strings.Join | src/bookmark.rs:11 | `Vec::join`; no `ensures` of its own; `JoinSplit`, `SplitJoin` and `TagListTextSplits` relate it to `split` |
| Strings.JoinSplit | bkmrk-lib/src/netscape_parser.rs:64-70 | joining the pieces of a split with the separator gives back the text |
| Strings.SplitJoin | bkmrk-lib/src/netscape_parser.rs:64-70 | splitting a join of separator-free items gives back the items |
| Strings.NonEmpty | bkmrk-lib/src/netscape_parser.rs:68 | dropping empty pieces keeps exactly the non-empty ones |
| Strings.NonEmptyMultiset | bkmrk-lib/src/netscape_parser.rs:68 | every non-empty piece is kept as often as it occurs, and no empty one |
| Strings.NonEmptyAppend | src/netscape_bookmark_parser.rs:54-70 | filtering two lists one after the other is filtering their concatenation, so the `TAGS` pieces stay ahead of the folder names |
| Strings.NonEmptyFirstIndex | src/netscape_bookmark_parser.rs:54-70 | filtering keeps the order of first occurrences: one kept text comes before another exactly when it first occurs earlier in the original |
| Strings.Replace | src/netscape_bookmark_parser.rs:16-19 | `str::replace`; no `ensures` of its own; `ReplaceAbsent`, `ReplaceThrough` and `ReplaceKeepsOut` state what it substitutes |
| Strings.ReplaceAbsent | src/netscape_bookmark_parser.rs:16-19 | `replace` leaves a text without the pattern unchanged |
| Strings.ReplaceThrough | src/bookmark.rs:39-44 | `replace` substitutes the first occurrence and carries on after it |
| Strings.ReplaceKeepsOut | src/netscape_bookmark_parser.rs:16-19 | replacing one tag by a longer self-closing form never creates an occurrence of a tag that was absent, and leaves none of the pattern |
| Numbers.ParseI64 | bkmrk-lib/src/netscape_parser.rs:85 | an accepted text is an optional '+' or '-' followed by one or more digits and nothing else, and its value, with the sign applied, fits in 64 bits |
| Numbers.ParseI64Accepts | bkmrk-lib/src/netscape_parser.rs:85 | conversely, every optional sign followed by digits whose signed value fits in 64 bits is accepted with that value |
| Numbers.ParseErrorText | bkmrk-lib/src/netscape_parser.rs:84-91 | the message of a failed `ts_str.parse()?`; no `ensures` of its own; `ParseErrorKinds` gives the message for every sign, digit run and rest |
| Numbers.ParseErrorKinds | bkmrk-lib/src/netscape_parser.rs:84-91 | the error of a failed parse is decided by the leading run of digits: "number too large" or "number too small" when that run's signed value is out of range, whatever follows it, and "invalid digit" otherwise |
| Numbers.FormatInt | src/netscape_bookmark_parser.rs:84 | `format!("{}", n)`; no `ensures` of its own; `ParseFormat` proves that parsing it gives `n` back |
| Numbers.ParseFormat | src/netscape_bookmark_parser.rs:82-87 | parsing the decimal form of a 64-bit integer gives it back |
| Utils.Squeeze | src/utils/mod.rs:6-10 | the squeezed text is no longer than the original, is empty only when the original is, and keeps the whitespace status of both ends |
| Utils.SqueezeNoAdjacentWhitespace | src/utils/mod.rs:6-10 | the result has no two adjacent whitespace characters, and its only whitespace is ' ' |
| Utils.SqueezeKeepsText | src/utils/mod.rs:6-10 | the non-whitespace characters are kept, in order |
| Utils.SqueezeIdempotent | src/utils/mod.rs:6-10 | squeezing twice is squeezing once |
| Utils.SqueezeNoWhitespace | src/utils/mod.rs:6-10 | text without whitespace is unchanged |
| Utils.SqueezeEnds | src/utils/mod.rs:6-10 | a leading whitespace run becomes one space; the squeezed trim of a text has no whitespace at either end |
| Utils.DateTimeValid | src/utils/mod.rs:12-16 | every supported timestamp gives a valid calendar date and a valid time of day |
| Utils.TimestampRoundTrip | src/utils/mod.rs:12-16 | the date and time of a supported timestamp determine it: converting back gives the timestamp |
| Utils.CivilRoundTrip | src/utils/mod.rs:12-16 | converting a day count to a calendar date and back gives the day count |
| Utils.TimestampRangeStart | src/utils/mod.rs:12-16 | the first supported timestamp is -262144-01-01 00:00:00, and the second before it lies in year -262145 |
| Utils.TimestampRangeEnd | src/utils/mod.rs:12-16 | the last supported timestamp is 262143-12-31 23:59:59, and the second after it lies in year 262144 |
| Utils.TwoDigits | src/utils/mod.rs:15 | month, day and time fields are two decimal digits whose value is the number |
| Utils.Render | src/utils/mod.rs:15 | the formatted date is at least 19 characters, holds no '%', and ends with the two-digit second |
| Utils.RenderFields | src/utils/mod.rs:15 | `%Y-%m-%d %H:%M:%S` lays out the year field, then '-' month '-' day ' ' hour ':' minute ':' second, each a two-digit field holding its value |
| Utils.YearFieldParses | src/utils/mod.rs:15 | the year field of a 64-bit year parses back as that year |
| Utils.RenderReads | src/utils/mod.rs:15 | reading a rendered date and time field by field gives back its timestamp |
| Utils.DateString | src/utils/mod.rs:12-16 | the rendering of a supported timestamp holds no '%' and reads back as the timestamp |
| Utils.DateStringEpoch | src/utils/mod.rs:12-16 | timestamp 0 renders as "1970-01-01 00:00:00" |
| Utils.DateStringSeconds | src/utils/mod.rs:12-16 | the rendering holds no '%' and ends with the timestamp's second of the minute |
| SiteMetadata.DefaultSiteType | bkmrk-lib/src/site_metadata.rs:59-63 | the default site type is `Website`, shown as "website" |
| SiteMetadata.FromText | bkmrk-lib/src/site_metadata.rs:85-99 | a text recognised as a site type other than `Website` is exactly that type's display text |
| SiteMetadata.FromTextToText | bkmrk-lib/src/site_metadata.rs:65-99 | parsing the display text of a site type gives the type back |
| SiteMetadata.ToTextInjective | bkmrk-lib/src/site_metadata.rs:65-82 | distinct site types display differently |
| SiteMetadata.FromTextUnknown | bkmrk-lib/src/site_metadata.rs:98 | a text that is no type's display text parses as `Website` |
| Elements.TagFrom | bkmrk-lib/src/element.rs:37-53 | a known tag name, once trimmed, gives a tag other than `NONE` whose spelling is the trimmed name |
| Elements.TagFromSpelling | bkmrk-lib/src/element.rs:37-53 | every tag except `NONE` is recovered from its own spelling |
| Elements.SpellingTrimmed | bkmrk-lib/src/element.rs:40-50 | every tag spelling is a recognised name without surrounding whitespace |
| Elements.TagFromPadded | bkmrk-lib/src/element.rs:39 | whitespace around a tag name does not change the tag |
| Elements.DefaultTag | bkmrk-lib/src/element.rs:55-59 | the default tag is one that no tag name produces |
| Elements.DefaultElement | bkmrk-lib/src/element.rs:3-10 | the default element has tag `NONE` and every optional part absent |
| Bookmarks.TagListFrom | src/bookmark.rs:15-19 | converting a list to a tag list keeps it as it is |
| Bookmarks.TagListText | src/bookmark.rs:9-13 | an empty tag list displays as "", a single tag as itself |
| Bookmarks.TagListTextSplits | src/bookmark.rs:9-13 | the display of tags without ',' splits at ',' back into the tags, the second and later each after one space |
| Bookmarks.DefaultBookmark | src/bookmark.rs:21-33 | the default bookmark has empty texts, zero timestamps and no tags |
| Bookmarks.BookmarkText | src/bookmark.rs:87-91 | the `Display` of a bookmark, `name - link [tags]`; no `ensures` of its own; `CliBookmarks.FormatDefaultIsDisplay` shows the default listing template prints it |
| Bookmarks.FillPlaceholders | src/bookmark.rs:39-44 | the six `%`-placeholder replaces, in their order; no `ensures` of its own; `FillPlain`, `FillDefaultTemplate`, `FillCascades` and `FillSingle` state what they give |
| Bookmarks.FillPlain | src/bookmark.rs:36-47 | a format string without '%' is returned unchanged |
| Bookmarks.FillDefaultTemplate | src/bookmark.rs:36-47 | "%n - %l [%t]" gives `name - link [tags]` when those values hold no '%' |
| Bookmarks.FillCascades | src/bookmark.rs:36-47 | the replacements cascade: a placeholder inside a substituted value is itself replaced by a later step |
| Bookmarks.FillSingle | src/bookmark.rs:36-47 | "%n", "%a" and "%t" alone give the name, the added date and the tags when no value holds a '%' |
| Bookmarks.TagsAttributeRoundTrip | bkmrk-lib/src/netscape_parser.rs:64-70 | non-empty tags without commas, joined by ',', come back unchanged from the import's split-and-filter |
| Bookmarks.Format | bkmrk-lib/src/bookmark.rs:37-57 | the library's `format`, over the unescaped fields; no `ensures` of its own; `Bookmarks.FormatPlain` and `Bookmarks.FormatName` state its results |
| Bookmarks.FormatPlain | bkmrk-lib/src/bookmark.rs:37-57 | the library's format returns a template without '%' as it is |
| Bookmarks.FormatName | bkmrk-lib/src/bookmark.rs:37-57 | the library's "%n" gives the unescaped name |
| CliBookmarks.Format | src/bookmark.rs:36-47 | the command-line `format`; no `ensures` of its own; `CliBookmarks.FormatPlain`, `FormatDefaultIsDisplay` and `FormatSingleFields` state its results |
| CliBookmarks.FormatPlain | src/bookmark.rs:36-47 | the command-line format returns a template without '%' as it is |
| CliBookmarks.FormatDefaultIsDisplay | src/bookmark.rs:36-47 | the default listing format "%n - %l [%t]" prints the bookmark's display form |
| CliBookmarks.FormatSingleFields | src/bookmark.rs:36-47 | "%t" prints the tag list's display; "%a" prints the added date string |
| NetscapeParser.AttributesOf | bkmrk-lib/src/netscape_parser.rs:142-168 | `get_attributes` as a function; no `ensures` of its own; `KeyValues`, `AttributeKeys` and `AttributeValues` state its errors, keys and values, and `GetAttributes` proves the loop equal to it |
| NetscapeParser.KeyValues | bkmrk-lib/src/netscape_parser.rs:153-162 | the key/value list succeeds exactly when every attribute node has a key and a value; it pairs each node's first two texts in order, or fails with "Couldn't get attribute key" |
| NetscapeParser.AttributeKeys | bkmrk-lib/src/netscape_parser.rs:142-167 | the attribute map holds exactly the keys of the attribute nodes |
| NetscapeParser.AttributeValues | bkmrk-lib/src/netscape_parser.rs:153-165 | each key maps to the value of its last occurrence |
| NetscapeParser.GetAttributes | bkmrk-lib/src/netscape_parser.rs:142-168 | the loop gives: the wrong-node error, `None` for no attributes, the key error, or the map of all pairs |
| NetscapeParser.ElementOf | bkmrk-lib/src/netscape_parser.rs:113-140 | `make_element` as a function; no `ensures` of its own; `ElementOfFields` and the `FillFrom…` lemmas state every field, and `MakeElement` proves the loop equal to it |
| NetscapeParser.ElementsOf | bkmrk-lib/src/netscape_parser.rs:125-133 | the children loop of `make_element`; no `ensures` of its own; `ElementsOfSpec` states one element per child node, and `MakeChildren` proves the loop equal to it |
| NetscapeParser.MakeElement | bkmrk-lib/src/netscape_parser.rs:113-140 | the loop over sub-nodes builds exactly the element, error or panic that the specification function gives |
| NetscapeParser.SubNodeSetting | bkmrk-lib/src/netscape_parser.rs:121-136 | each sub-node sets one field, or panics on an unknown rule or tag name |
| NetscapeParser.AttributesSetting | bkmrk-lib/src/netscape_parser.rs:123 | an attributes node sets the attributes `get_attributes` returns, or passes on its error |
| NetscapeParser.ChildrenSetting | bkmrk-lib/src/netscape_parser.rs:125-133 | a children node sets the elements built from its child nodes, or passes on the first error or panic |
| NetscapeParser.MakeChildren | bkmrk-lib/src/netscape_parser.rs:125-133 | the children loop builds the elements of all child nodes in order, stopping at the first error |
| NetscapeParser.FillFromName | bkmrk-lib/src/netscape_parser.rs:122 | the element's tag comes from the last name node, or stays `NONE` |
| NetscapeParser.FillFromInnerText | bkmrk-lib/src/netscape_parser.rs:124 | the inner text is the last inner-text node's, or absent |
| NetscapeParser.FillFromText | bkmrk-lib/src/netscape_parser.rs:134 | the trailing text is the last text node's, or absent |
| NetscapeParser.FillFromAttributes | bkmrk-lib/src/netscape_parser.rs:123 | the attributes are those `get_attributes` gives for the last attributes node, or stay absent |
| NetscapeParser.FillFromChildren | bkmrk-lib/src/netscape_parser.rs:125-133 | the children are the elements built from the last children node's child nodes, or stay absent |
| NetscapeParser.FillFromKnownRules | bkmrk-lib/src/netscape_parser.rs:135 | a built element had only known kinds of sub-node |
| NetscapeParser.ElementOfFields | bkmrk-lib/src/netscape_parser.rs:113-140 | a built element comes from an element node with known sub-nodes; its tag, attributes, inner text, children and text are those of the last node of each kind, or the defaults without one |
| NetscapeParser.ElementsOfSpec | bkmrk-lib/src/netscape_parser.rs:125-133 | the children are one element per child node, in order |
| NetscapeParser.TopElements | bkmrk-lib/src/netscape_parser.rs:23-39 | `get_elements` over the parsed pairs; no `ensures` of its own; `TopElementsSpec` states it, and `GetElements` proves the loop equal to it |
| NetscapeParser.ElementNodes | bkmrk-lib/src/netscape_parser.rs:28-36 | the element nodes among the top-level nodes |
| NetscapeParser.TopElementsSpec | bkmrk-lib/src/netscape_parser.rs:28-36 | a successful top level holds only element, doctype and end nodes, and gives one element per element node, in order |
| NetscapeParser.GetElements | bkmrk-lib/src/netscape_parser.rs:23-39 | the loop skips doctype and end of input, builds each element, and panics on any other node |
| NetscapeParser.Timestamp | bkmrk-lib/src/netscape_parser.rs:84-91 | a present timestamp attribute succeeds exactly when it parses as a 64-bit integer and is that integer; an absent one is the current time |
| NetscapeParser.AnchorTags | bkmrk-lib/src/netscape_parser.rs:64-80 | the tags have no duplicates; they are the non-empty `TAGS` pieces and, when folder labels are wanted, the labels in scope |
| NetscapeParser.AnchorOf | bkmrk-lib/src/netscape_parser.rs:62-104 | an anchor panics exactly when it has no attributes or no `HREF`; it fails exactly when a timestamp is not an integer; otherwise it gives `HREF` as the link, the squeezed trimmed inner text as the name, the trailing text (or "") as the description, the parsed timestamps and the tags |
| NetscapeParser.Walk | bkmrk-lib/src/netscape_parser.rs:41-111 | `get_bookmarks` over a run of elements; no `ensures` of its own; `WalkAnchors`, `WalkAppend`, `WalkTags`, `WalkHeading`, `WalkSkips` and `WalkMissingChildren` state its results, and `GetBookmarks` proves the loop equal to it |
| NetscapeParser.Visit | bkmrk-lib/src/netscape_parser.rs:54-108 | one element of `get_bookmarks`; no `ensures` of its own; `VisitAnchors` states its result, and `VisitElement` proves the match arm equal to it |
| NetscapeParser.GetBookmarks | bkmrk-lib/src/netscape_parser.rs:41-111 | the loop returns exactly what the recursive walk specification gives |
| NetscapeParser.VisitElement | bkmrk-lib/src/netscape_parser.rs:54-106 | a `DL` is walked with the labels in scope (an error without children), an anchor gives its one bookmark, `NONE` panics and any other tag gives nothing, exactly as the walk specification says |
| NetscapeParser.WalkAppend | bkmrk-lib/src/netscape_parser.rs:46-61 | walking two runs of elements is walking the first, then the second with the first's top-level heading labels added; labels pushed inside a `DL` do not escape it |
| NetscapeParser.WalkHeading | bkmrk-lib/src/netscape_parser.rs:51-53 | a heading adds its inner text, or "", to the labels of what follows |
| NetscapeParser.WalkSkips | bkmrk-lib/src/netscape_parser.rs:106 | `DT`, `DD`, `P`, `META` and `DOCTYPE` give nothing and keep the labels |
| NetscapeParser.WalkMissingChildren | bkmrk-lib/src/netscape_parser.rs:54-58 | reaching a `DL` without children fails the whole walk with "Failed to get element children" |
| NetscapeParser.WalkAnchors | bkmrk-lib/src/netscape_parser.rs:49-108 | a successful walk gives one bookmark per anchor reached, in depth-first order, each built from its anchor with the labels in scope there; this holds for any anchor builder, so also for `AnchorOf` with the run's flag and clock |
| NetscapeParser.VisitAnchors | bkmrk-lib/src/netscape_parser.rs:54-104 | a single `DL` or anchor gives one bookmark per anchor it holds, each built with the labels in scope at it |
| NetscapeParser.AnchorScopes | bkmrk-lib/src/netscape_parser.rs:47-59 | the labels in scope at every anchor extend the labels the walk started with |
| NetscapeParser.AnchorScopesAt | bkmrk-lib/src/netscape_parser.rs:54-59 | the labels of every anchor an element holds (itself, or inside a `DL`) extend the labels in scope at the element |
| NetscapeParser.WalkTags | bkmrk-lib/src/netscape_parser.rs:64-80 | every imported bookmark's tags are duplicate-free; they are its anchor's `TAGS` pieces plus, when folder labels are wanted, the labels in scope at it |
| NetscapeParser.ParseOutcome | bkmrk-lib/src/netscape_parser.rs:17-21 | `parse_str` from the grammar's result; no `ensures` of its own; `ParseStr` states it |
| NetscapeParser.ParseStr | bkmrk-lib/src/netscape_parser.rs:17-21 | `parse_str` is the syntax error, or the top-level elements walked with no labels |
| NetscapeBookmarkParser.Prepass | src/netscape_bookmark_parser.rs:15-21 | the three `replace`s before reading; no `ensures` of its own; `PrepassClosesTags`, `PrepassIdempotent` and `PrepassPlain` state its results |
| NetscapeBookmarkParser.PrepassClosesTags | src/netscape_bookmark_parser.rs:16-19 | after the pre-pass no `<DT>`, `<DD>` or `<p>` remains |
| NetscapeBookmarkParser.PrepassIdempotent | src/netscape_bookmark_parser.rs:16-19 | a second pre-pass changes nothing |
| NetscapeBookmarkParser.PrepassPlain | src/netscape_bookmark_parser.rs:16-19 | text without '<' passes the pre-pass unchanged |
| NetscapeBookmarkParser.AnchorTags | src/netscape_bookmark_parser.rs:54-75 | the tags have no duplicates; they are the non-empty `TAGS` pieces and, when folder tags are wanted, the non-empty folder names, in the order of their first occurrence there |
| NetscapeBookmarkParser.DedupKeepsOrder | src/netscape_bookmark_parser.rs:75 | `unique()` over the non-empty pieces keeps them in the order they first occur among all pieces |
| NetscapeBookmarkParser.OpenAnchor | src/netscape_bookmark_parser.rs:41-88 | the anchor arm of the loop as a function; no `ensures` of its own; `OpenAnchorSpec` states its panics and the new state, and `OpenAnchorEvent` proves the arm equal to it |
| NetscapeBookmarkParser.OpenAnchorEvent | src/netscape_bookmark_parser.rs:41-88 | the anchor arm of the loop gives exactly the state (or panic) that the step specification gives |
| NetscapeBookmarkParser.OpenAnchorSpec | src/netscape_bookmark_parser.rs:41-88 | an opening anchor panics exactly when `HREF` or `ADD_DATE` is missing or a date is not an integer; otherwise it sets the trimmed link, the dates (the clock when `LAST_MODIFIED` is missing) and the tags, duplicate-free in first-occurrence order, and nothing else |
| NetscapeBookmarkParser.TextStep | src/netscape_bookmark_parser.rs:100-117 | the text arm of the loop as a function; no `ensures` of its own; `HeadingTextPushes`, `AnchorTextAppends`, `DescriptionReplaces` and `TextAppends` state its cases, and `TextEvent` proves the arm equal to it |
| NetscapeBookmarkParser.TextEvent | src/netscape_bookmark_parser.rs:100-117 | the text arm of the loop gives exactly the state (or panic) that the step specification gives |
| NetscapeBookmarkParser.Step | src/netscape_bookmark_parser.rs:36-121 | one pass of the loop body as a function; no `ensures` of its own; `StepConsistent`, `StepKeeps`, `StepAppends`, `StepLastEvent`, `EndListPops` and `IgnoredKeepsState` state its effect, and `EventStep` proves the body equal to it |
| NetscapeBookmarkParser.EventStep | src/netscape_bookmark_parser.rs:37-120 | the body of the loop for one event gives exactly the next state, error or panic that the step specification gives |
| NetscapeBookmarkParser.HeadingTextPushes | src/netscape_bookmark_parser.rs:101-104 | text after an opened heading goes on top of the folder stack; undecodable text panics |
| NetscapeBookmarkParser.EndListPops | src/netscape_bookmark_parser.rs:92-94 | the end of a `DL` drops the top folder name; an empty stack stays empty |
| NetscapeBookmarkParser.AnchorTextAppends | src/netscape_bookmark_parser.rs:105-110 | text after an opened anchor appends exactly one bookmark, the pending one named by the squeezed trimmed text, and resets the pending bookmark |
| NetscapeBookmarkParser.DescriptionReplaces | src/netscape_bookmark_parser.rs:111-115 | text after a closed anchor replaces only the last bookmark's description; with no bookmark it panics |
| NetscapeBookmarkParser.IgnoredKeepsState | src/netscape_bookmark_parser.rs:89-120 | every other event leaves the state unchanged |
| NetscapeBookmarkParser.StepConsistent | src/netscape_bookmark_parser.rs:35-122 | each event keeps the pending bookmark tidy and every imported bookmark well formed |
| NetscapeBookmarkParser.Run | src/netscape_bookmark_parser.rs:35-126 | the whole loop up to `Eof` as a function; no `ensures` of its own; `RunConsistent`, `RunKeeps` and `RunAnchorTexts` state its result |
| NetscapeBookmarkParser.RunConsistent | src/netscape_bookmark_parser.rs:35-122 | a run from a consistent state yields only well-formed bookmarks |
| NetscapeBookmarkParser.ImportedBookmarksTidy | src/netscape_bookmark_parser.rs:72-110 | every imported bookmark has duplicate-free tags, a trimmed link, and a trimmed name whose whitespace runs are single spaces |
| NetscapeBookmarkParser.StepKeeps | src/netscape_bookmark_parser.rs:105-115 | an event keeps every imported bookmark as it is except the last one's description, and appends at most one |
| NetscapeBookmarkParser.RunKeeps | src/netscape_bookmark_parser.rs:35-126 | a run keeps every bookmark imported before it as it is, except that the last one's description may change |
| NetscapeBookmarkParser.StepLastEvent | src/netscape_bookmark_parser.rs:37-99 | an event moves the last tag opened or closed to a heading or anchor it opens or an anchor it closes, and keeps it otherwise |
| NetscapeBookmarkParser.TextAppends | src/netscape_bookmark_parser.rs:100-117 | a text read inside an opened anchor appends one name, its squeezed trimmed text; any other text keeps the names |
| NetscapeBookmarkParser.StepAppends | src/netscape_bookmark_parser.rs:37-120 | one event appends the name of its anchor text, if it is one, and keeps the names otherwise |
| NetscapeBookmarkParser.RunAnchorTexts | src/netscape_bookmark_parser.rs:35-126 | a run appends one bookmark per text read inside an opened anchor up to `Eof`, in reading order, named by its squeezed trimmed text, after the names it started with |
| NetscapeBookmarkParser.ParseFile | src/netscape_bookmark_parser.rs:11-127 | `parse_netscape_bookmark_file` as a function; no `ensures` of its own; `ImportedBookmarksTidy` and `ImportedBookmarkNames` state its result, and `ParseNetscapeBookmarkFile` proves the method equal to it |
| NetscapeBookmarkParser.ParseNetscapeBookmarkFile | src/netscape_bookmark_parser.rs:11-127 | the read error becomes "Failed to read file …"; otherwise the loop over the pre-processed file's events returns exactly what the run specification gives |
| NetscapeBookmarkParser.ImportedBookmarkNames | src/netscape_bookmark_parser.rs:11-127 | an imported file gives exactly one bookmark per anchor text of the pre-processed file, in order, named by its squeezed trimmed text |

## Left out

- The pest grammar (`netscape.pest`) is not part of this model. `ParseStr`
  takes the grammar's result as its input.
- The `quick_xml` reader is not modelled. This covers tokenising, entity
  unescaping, text trimming, closing-name trimming, and the UTF-8 checks on
  names and attribute bytes. The events it yields are the `reader`
  parameter. A `Text` event carries the decoding result, which is `None` when
  decoding fails. `Start` carries only the well-formed attributes. A reader
  error is an `Error` event carrying its position.
- File reading (`read_file`) is not modelled. Its result is a parameter.
- The clock is not modelled. `Utc::now()` is the parameter `now`, and one
  parse uses a single value, while the program reads the clock once per
  missing field.
- NetscapeParser.AnchorTags: the program collects the tags through a
  `HashSet`, whose order is unspecified. The model picks first-occurrence
  order, and its contract states only membership and the absence of
  duplicates.
- The unescaping in the library's `format` is not modelled. The `unescape`
  crate is a parameter, a partial function.
- Bookmarks.Format and CliBookmarks.Format: the panics of `format` are
  modelled as preconditions (`CanFormat`, `Renderable`). They come from an
  `unwrap` of a failed unescape, and from a timestamp outside chrono's range
  in `get_date_string`.
- Elements.TagFrom: the `unreachable!()` for any other name is a
  precondition. Its one caller, the element builder, checks the name first and
  returns `Panicked` for it.
- Utils.DateString: chrono's panic for an out-of-range timestamp is a
  precondition. The range is [-8334632851200, 8210298412799], from
  -262144-01-01 00:00:00 to 262143-12-31 23:59:59. This is the range of the
  chrono 0.4 releases whose years run from `i32::MIN >> 13` to
  `i32::MAX >> 13` and which still offer `NaiveDateTime::from_timestamp`.
  The crate manifest that pins the version is not part of this model, and a
  chrono release with a narrower range would panic on more timestamps.
- Strings.NonEmpty: its own contract states membership only. The order and
  multiplicity of the kept pieces are stated by `NonEmptyAppend`,
  `NonEmptyFirstIndex` and `NonEmptyMultiset`, because stating them on the
  function makes every proof that uses it too costly.
- The bookmark `id` field and the `Tabled` derive are not part of the model:
  the importers never set them.
- `Element`'s `Display` (a debug dump) is not modelled.
- `SiteMetadata::get_metadata` is not modelled, because it fetches a web
  page over the network. The `SiteMetadata` struct's other fields are also
  left out; only `SiteType` and its text forms are modelled.
- `Bookmark::get_matching_bookmarks` (database) and `Bookmark::get_table`
  (terminal width, table layout) are not modelled.
- `bkmrk-lib/src/utils/mod.rs` is not part of this model. The library's calls
  to `squeeze_whitespaces` and `get_date_string` use the functions of
  `src/utils/mod.rs`.
- The regular expression `[\s\n]+` is modelled directly as runs of Unicode
  `White_Space` characters, not through a regex engine.
- The library builds its bookmarks with a `metadata: SiteMetadata { title,
  description }` field. That does not match `bkmrk-lib/src/bookmark.rs`. The
  model keeps the title as `name` and the description, or "", as
  `description`.
