/**
 * The element tree the library's bookmark-file parser builds from the
 * grammar's parse tree: tag names, attributes, inner text, children and the
 * text that trails an element.
 */
module Elements {
  import opened Wrappers
  import opened Strings

  /** The tags a bookmark file is made of; `NONE` is only ever the default. */
  datatype Tag = DOCTYPE | META | TITLE | H1 | H3 | DL | DT | DD | A | P | NONE

  /** The exact (case-sensitive) spelling of each real tag. */
  function Spelling(t: Tag): string
    requires t != NONE
  {
    match t
    case DOCTYPE => "DOCTYPE"
    case META => "META"
    case TITLE => "TITLE"
    case H1 => "H1"
    case H3 => "H3"
    case DL => "DL"
    case DT => "DT"
    case DD => "DD"
    case A => "A"
    case P => "p"
  }

  predicate IsTagName(s: string) {
    s in {"DOCTYPE", "META", "TITLE", "H1", "H3", "DL", "DT", "DD", "A", "p"}
  }

  /**
   * `Tags::from`: the trimmed name matched exactly. Any other name hits
   * `unreachable!()`; the parser checks `IsTagName` first and returns that
   * panic as `Panicked`.
   */
  function TagFrom(name: string): (t: Tag)
    requires IsTagName(Trim(name))
    ensures t != NONE && Spelling(t) == Trim(name)
  {
    match Trim(name)
    case "DOCTYPE" => DOCTYPE
    case "META" => META
    case "TITLE" => TITLE
    case "H1" => H1
    case "H3" => H3
    case "DL" => DL
    case "DT" => DT
    case "DD" => DD
    case "A" => A
    case "p" => P
  }

  /** Each spelling is a tag name with no surrounding whitespace. */
  lemma SpellingTrimmed(t: Tag)
    requires t != NONE
    ensures IsTagName(Spelling(t)) && Trim(Spelling(t)) == Spelling(t)
  {
    var s := Spelling(t);
    assert !IsWhitespace(s[0]) && !IsWhitespace(s[|s| - 1]);
    TrimUnpadded(s);
  }

  /** Each real tag is recognised from its own spelling. */
  lemma TagFromSpelling(t: Tag)
    requires t != NONE
    ensures IsTagName(Trim(Spelling(t))) && TagFrom(Spelling(t)) == t
  {
    SpellingTrimmed(t);
  }

  /** Text whose ends are not whitespace is its own trim. */
  lemma TrimUnpadded(s: string)
    requires s != [] && !IsWhitespace(s[0]) && !IsWhitespace(s[|s| - 1])
    ensures Trim(s) == s
  {
    assert TrimEnd(s) == s;
    assert TrimStart(s) == s;
  }

  /** Whitespace around a tag name does not change its classification. */
  lemma TagFromPadded(pre: string, name: string, post: string)
    requires AllWhitespace(pre) && AllWhitespace(post) && IsTagName(Trim(name))
    ensures IsTagName(Trim(pre + name + post))
    ensures TagFrom(pre + name + post) == TagFrom(name)
  {
    TrimPadded(pre, name, post);
  }

  /** The default tag. */
  function DefaultTag(): (t: Tag)
    ensures forall s :: IsTagName(Trim(s)) ==> TagFrom(s) != t
  {
    NONE
  }

  /** The children of an element: absent, or a (possibly empty) list. */
  datatype ChildList = NoChildren | Children(elements: seq<Element>)

  datatype Element = Element(
    name: Tag,
    attributes: Option<map<string, string>>,
    innerText: Option<string>,
    children: ChildList,
    text: Option<string>)

  /** `Element::default()`: no tag name and every optional part absent. */
  function DefaultElement(): (e: Element)
    ensures e.name == NONE && e.attributes == None && e.innerText == None
    ensures e.children == NoChildren && e.text == None
  {
    Element(NONE, None, None, NoChildren, None)
  }
}
