/**
 * The library's bookmark-file import: the grammar's parse tree turned into
 * an element tree (`make_element`, `get_attributes`, `get_elements`), then
 * walked depth first to collect one bookmark per anchor, with the folder
 * headings in scope as optional extra tags (`get_bookmarks`, `parse_str`).
 */
module NetscapeParser {
  import opened Wrappers
  import opened Collections
  import opened Strings
  import opened Numbers
  import opened Utils
  import opened Elements
  import opened Bookmarks

  // ---------------------------------------------------------------------
  // The parse tree handed over by the grammar.
  // ---------------------------------------------------------------------

  /** The grammar rules a parse-tree node can carry; `OtherRule` stands for the rest. */
  datatype Rule =
    | DoctypeRule | EoiRule | ElementRule | IdentRule | TagNamesNoCloseRule
    | AttributesRule | AttributeRule | InnerTextRule | ChildrenRule | TextRule | OtherRule

  /** A node of the parse tree: its rule, the text it matched, and its sub-nodes. */
  datatype Pair = Pair(rule: Rule, text: string, inner: seq<Pair>)

  // ---------------------------------------------------------------------
  // get_attributes
  // ---------------------------------------------------------------------

  /**
   * The key and value of each attribute node, in order: the text of its
   * first two sub-nodes. A node with fewer than two is an error.
   */
  function KeyValues(attrs: seq<Pair>): (r: Result<seq<(string, string)>>)
    ensures r.Ok? <==> forall k :: 0 <= k < |attrs| ==> |attrs[k].inner| >= 2
    ensures r.Ok? ==> |r.value| == |attrs|
    ensures r.Ok? ==> forall k :: 0 <= k < |attrs| ==> r.value[k] == (KeyOf(attrs[k]), ValueOf(attrs[k]))
    ensures r.Err? ==> r.error == "Couldn't get attribute key"
  {
    if attrs == [] then Ok([])
    else
      var last := attrs[|attrs| - 1];
      match KeyValues(attrs[..|attrs| - 1])
      case Err(e) => Err(e)
      case Ok(kvs) =>
        if |last.inner| < 2 then Err("Couldn't get attribute key")
        else Ok(kvs + [(last.inner[0].text, last.inner[1].text)])
  }

  function KeyOf(attr: Pair): string
    requires |attr.inner| >= 1
  {
    attr.inner[0].text
  }

  function ValueOf(attr: Pair): string
    requires |attr.inner| >= 2
  {
    attr.inner[1].text
  }

  /**
   * What `get_attributes` returns: an error for a node that is not an
   * attribute list or an attribute without key and value, nothing for an
   * empty list, otherwise the map built by inserting the pairs in order.
   */
  function AttributesOf(p: Pair): Result<Option<map<string, string>>>
  {
    if p.rule != AttributesRule then Err("Passed element not attributes")
    else if p.inner == [] then Ok(None)
    else
      match KeyValues(p.inner)
      case Err(e) => Err(e)
      case Ok(kvs) => Ok(Some(LastWins(kvs)))
  }

  /** The attribute map holds exactly the keys given. */
  lemma AttributeKeys(p: Pair)
    requires AttributesOf(p).Ok? && AttributesOf(p).value.Some?
    ensures forall k :: 0 <= k < |p.inner| ==> |p.inner[k].inner| >= 2
    ensures AttributesOf(p).value.value.Keys == set k | 0 <= k < |p.inner| :: KeyOf(p.inner[k])
  {
    var kvs := KeyValues(p.inner).value;
    LastWinsKeys(kvs);
    var keys := set k | 0 <= k < |p.inner| :: KeyOf(p.inner[k]);
    assert (set i | 0 <= i < |kvs| :: kvs[i].0) == keys by {
      forall i | 0 <= i < |kvs| ensures kvs[i].0 == KeyOf(p.inner[i]) { }
    }
  }

  /** Each key maps to the value of its last occurrence. */
  lemma AttributeValues(p: Pair, k: nat)
    requires AttributesOf(p).Ok? && AttributesOf(p).value.Some?
    requires k < |p.inner|
    ensures |p.inner[k].inner| >= 2 && KeyOf(p.inner[k]) in AttributesOf(p).value.value
    ensures (forall j :: k < j < |p.inner| ==> KeyOf(p.inner[j]) != KeyOf(p.inner[k])) ==>
      AttributesOf(p).value.value[KeyOf(p.inner[k])] == ValueOf(p.inner[k])
  {
    var kvs := KeyValues(p.inner).value;
    assert kvs[k] == (KeyOf(p.inner[k]), ValueOf(p.inner[k]));
    LastWinsKeys(kvs);
    if forall j :: k < j < |p.inner| ==> KeyOf(p.inner[j]) != KeyOf(p.inner[k]) {
      forall j | k < j < |kvs| ensures kvs[j].0 != kvs[k].0 {
        assert kvs[j].0 == KeyOf(p.inner[j]);
      }
      LastWinsValues(kvs, k);
    }
  }

  /** `get_attributes`. */
  method GetAttributes(p: Pair) returns (r: Result<Option<map<string, string>>>)
    ensures r == AttributesOf(p)
  {
    var attributes: map<string, string> := map[];
    if p.rule != AttributesRule {
      return Err("Passed element not attributes");
    }
    var attrPairs := p.inner;
    if attrPairs == [] {
      return Ok(None);
    }
    for i := 0 to |attrPairs|
      invariant KeyValues(attrPairs[..i]).Ok?
      invariant attributes == LastWins(KeyValues(attrPairs[..i]).value)
    {
      var val := attrPairs[i].inner;
      assert attrPairs[..i + 1][..i] == attrPairs[..i];
      if |val| < 1 {
        assert |attrPairs[i].inner| < 2;
        return Err("Couldn't get attribute key");
      }
      var k := val[0].text;
      if |val| < 2 {
        assert |attrPairs[i].inner| < 2;
        return Err("Couldn't get attribute key");
      }
      var v := val[1].text;
      attributes := attributes[k := v];
    }
    assert attrPairs[..|attrPairs|] == attrPairs;
    return Ok(Some(attributes));
  }

  // ---------------------------------------------------------------------
  // make_element
  // ---------------------------------------------------------------------

  /**
   * What `make_element` does with a node: an error unless it is an element
   * node, otherwise the element its sub-nodes fill in, starting from the
   * default element.
   */
  function ElementOf(p: Pair): Outcome<Element>
    decreases p, 3
  {
    if p.rule != ElementRule then Failed("Passed element not an element")
    else FillFrom(p, 0, DefaultElement())
  }

  /** The field one sub-node of an element node sets. */
  datatype Setting =
    | SetName(tag: Tag)
    | SetAttributes(attributes: Option<map<string, string>>)
    | SetInnerText(innerText: string)
    | SetChildren(elements: seq<Element>)
    | SetText(text: string)

  /**
   * The field a sub-node sets: a tag name, the attributes, the inner text,
   * the children (each built in turn) or the trailing text. A tag name
   * outside the known set, or a sub-node of another rule, is unreachable
   * in the program and panics.
   */
  function SettingOf(q: Pair): Outcome<Setting>
    decreases q, 1
  {
    match q.rule
    case IdentRule | TagNamesNoCloseRule =>
      if IsTagName(Trim(q.text)) then Done(SetName(TagFrom(q.text))) else Panicked("unreachable tag name")
    case AttributesRule =>
      (match AttributesOf(q)
       case Ok(a) => Done(SetAttributes(a))
       case Err(e) => Failed(e))
    case InnerTextRule => Done(SetInnerText(q.text))
    case ChildrenRule =>
      (match ElementsOf(q, 0)
       case Done(es) => Done(SetChildren(es))
       case Failed(e) => Failed(e)
       case Panicked(m) => Panicked(m))
    case TextRule => Done(SetText(q.text))
    case _ => Panicked("unreachable rule")
  }

  function Set(el: Element, s: Setting): Element
  {
    match s
    case SetName(t) => el.(name := t)
    case SetAttributes(a) => el.(attributes := a)
    case SetInnerText(t) => el.(innerText := Some(t))
    case SetChildren(es) => el.(children := Children(es))
    case SetText(t) => el.(text := Some(t))
  }

  /** The element `el` after the sub-nodes `p.inner[k..]` have set their fields in order. */
  function FillFrom(p: Pair, k: nat, el: Element): Outcome<Element>
    requires k <= |p.inner|
    decreases p, 2, |p.inner| - k
  {
    if k == |p.inner| then Done(el)
    else
      match SettingOf(p.inner[k])
      case Done(s) => FillFrom(p, k + 1, Set(el, s))
      case Failed(e) => Failed(e)
      case Panicked(m) => Panicked(m)
  }

  /** The elements of the sub-nodes `q.inner[m..]`, built in order; the first error or panic stops. */
  function ElementsOf(q: Pair, m: nat): Outcome<seq<Element>>
    requires m <= |q.inner|
    decreases q, 0, |q.inner| - m
  {
    if m == |q.inner| then Done([])
    else
      match ElementOf(q.inner[m])
      case Done(e) => Prepend([e], ElementsOf(q, m + 1))
      case Failed(err) => Failed(err)
      case Panicked(r) => Panicked(r)
  }

  /** `make_element`; a panic of the program is returned as `Panicked`. */
  method MakeElement(p: Pair) returns (r: Outcome<Element>)
    ensures r == ElementOf(p)
    decreases p, 2
  {
    if p.rule != ElementRule {
      return Failed("Passed element not an element");
    }
    var el := DefaultElement();
    for k := 0 to |p.inner|
      invariant FillFrom(p, k, el) == ElementOf(p)
    {
      var s := SubNodeSetting(p.inner[k]);
      match s {
        case Failed(e) =>
          return Failed(e);
        case Panicked(m) =>
          return Panicked(m);
        case Done(setting) =>
          el := Set(el, setting);
      }
    }
    return Done(el);
  }

  /** One arm of the loop of `make_element`: what the sub-node `q` sets. */
  method SubNodeSetting(q: Pair) returns (r: Outcome<Setting>)
    ensures r == SettingOf(q)
    decreases q, 1
  {
    match q.rule {
      case IdentRule | TagNamesNoCloseRule =>
        if !IsTagName(Trim(q.text)) {
          return Panicked("unreachable tag name");
        }
        return Done(SetName(TagFrom(q.text)));
      case AttributesRule =>
        r := AttributesSetting(q);
      case InnerTextRule =>
        return Done(SetInnerText(q.text));
      case ChildrenRule =>
        r := ChildrenSetting(q);
      case TextRule =>
        return Done(SetText(q.text));
      case _ =>
        return Panicked("unreachable rule");
    }
  }

  /** The `attributes` arm of the loop of `make_element`. */
  method AttributesSetting(q: Pair) returns (r: Outcome<Setting>)
    requires q.rule == AttributesRule
    ensures r == SettingOf(q)
  {
    var a := GetAttributes(q);
    if a.Err? {
      return Failed(a.error);
    }
    return Done(SetAttributes(a.value));
  }

  /** The `children` arm of the loop of `make_element`. */
  method ChildrenSetting(q: Pair) returns (r: Outcome<Setting>)
    requires q.rule == ChildrenRule
    ensures r == SettingOf(q)
    decreases q, 1, 0
  {
    var elements := MakeChildren(q);
    match elements {
      case Failed(e) =>
        return Failed(e);
      case Panicked(m) =>
        return Panicked(m);
      case Done(es) =>
        return Done(SetChildren(es));
    }
  }

  /** The loop of `make_element` over the sub-nodes of a children node. */
  method MakeChildren(q: Pair) returns (r: Outcome<seq<Element>>)
    ensures r == ElementsOf(q, 0)
    decreases q, 0
  {
    var elements: seq<Element> := [];
    for j := 0 to |q.inner|
      invariant ElementsOf(q, 0) == Prepend(elements, ElementsOf(q, j))
    {
      var c := MakeElement(q.inner[j]);
      match c {
        case Failed(e) =>
          return Failed(e);
        case Panicked(m) =>
          return Panicked(m);
        case Done(child) =>
          PrependPrepend(elements, [child], ElementsOf(q, j + 1));
          elements := elements + [child];
      }
    }
    assert elements + [] == elements;
    return Done(elements);
  }

  /** The index of the last node at or after `k` whose rule is in `rules`. */
  function LastOf(ps: seq<Pair>, rules: set<Rule>, k: nat): (r: Option<nat>)
    requires k <= |ps|
    ensures r.Some? ==> k <= r.value < |ps| && ps[r.value].rule in rules
    ensures r.Some? ==> forall j :: r.value < j < |ps| ==> ps[j].rule !in rules
    ensures r.None? ==> forall j :: k <= j < |ps| ==> ps[j].rule !in rules
    decreases |ps| - k
  {
    if k == |ps| then None
    else
      var later := LastOf(ps, rules, k + 1);
      if later.Some? then later
      else if ps[k].rule in rules then Some(k)
      else None
  }

  const NameRules: set<Rule> := {IdentRule, TagNamesNoCloseRule}

  /** The inner text is the one of the last inner-text sub-node, if any. */
  lemma {:induction false} FillFromInnerText(p: Pair, k: nat, el: Element)
    requires k <= |p.inner| && FillFrom(p, k, el).Done?
    ensures FillFrom(p, k, el).value.innerText ==
      match LastOf(p.inner, {InnerTextRule}, k)
      case Some(i) => Some(p.inner[i].text)
      case None => el.innerText
    decreases |p.inner| - k
  {
    if k < |p.inner| {
      FillFromInnerText(p, k + 1, Set(el, SettingOf(p.inner[k]).value));
    }
  }

  /** The trailing text is the one of the last text sub-node, if any. */
  lemma {:induction false} FillFromText(p: Pair, k: nat, el: Element)
    requires k <= |p.inner| && FillFrom(p, k, el).Done?
    ensures FillFrom(p, k, el).value.text ==
      match LastOf(p.inner, {TextRule}, k)
      case Some(i) => Some(p.inner[i].text)
      case None => el.text
    decreases |p.inner| - k
  {
    if k < |p.inner| {
      FillFromText(p, k + 1, Set(el, SettingOf(p.inner[k]).value));
    }
  }

  /** The attributes are those `get_attributes` gives for the last attributes sub-node, if any. */
  lemma {:induction false} FillFromAttributes(p: Pair, k: nat, el: Element)
    requires k <= |p.inner| && FillFrom(p, k, el).Done?
    ensures match LastOf(p.inner, {AttributesRule}, k)
      case Some(i) => AttributesOf(p.inner[i]).Ok? && FillFrom(p, k, el).value.attributes == AttributesOf(p.inner[i]).value
      case None => FillFrom(p, k, el).value.attributes == el.attributes
    decreases |p.inner| - k
  {
    if k < |p.inner| {
      FillFromAttributes(p, k + 1, Set(el, SettingOf(p.inner[k]).value));
    }
  }

  /** The children are the elements built from the last children sub-node, if any. */
  lemma {:induction false} FillFromChildren(p: Pair, k: nat, el: Element)
    requires k <= |p.inner| && FillFrom(p, k, el).Done?
    ensures match LastOf(p.inner, {ChildrenRule}, k)
      case Some(i) => ElementsOf(p.inner[i], 0).Done? && FillFrom(p, k, el).value.children == Children(ElementsOf(p.inner[i], 0).value)
      case None => FillFrom(p, k, el).value.children == el.children
    decreases |p.inner| - k
  {
    if k < |p.inner| {
      FillFromChildren(p, k + 1, Set(el, SettingOf(p.inner[k]).value));
    }
  }

  /** The tag is the one the last name sub-node spells, if any. */
  lemma {:induction false} FillFromName(p: Pair, k: nat, el: Element)
    requires k <= |p.inner| && FillFrom(p, k, el).Done?
    ensures match LastOf(p.inner, NameRules, k)
      case Some(i) => IsTagName(Trim(p.inner[i].text)) && FillFrom(p, k, el).value.name == TagFrom(p.inner[i].text)
      case None => FillFrom(p, k, el).value.name == el.name
    decreases |p.inner| - k
  {
    if k < |p.inner| {
      FillFromName(p, k + 1, Set(el, SettingOf(p.inner[k]).value));
    }
  }

  /** Every sub-node of a successfully built element node is of a known rule. */
  lemma {:induction false} FillFromKnownRules(p: Pair, k: nat, el: Element)
    requires k <= |p.inner| && FillFrom(p, k, el).Done?
    ensures forall j :: k <= j < |p.inner| ==> p.inner[j].rule in KnownRules
    decreases |p.inner| - k
  {
    if k < |p.inner| {
      FillFromKnownRules(p, k + 1, Set(el, SettingOf(p.inner[k]).value));
    }
  }

  const KnownRules: set<Rule> :=
    {IdentRule, TagNamesNoCloseRule, AttributesRule, InnerTextRule, ChildrenRule, TextRule}

  /**
   * A built element: the node is an element node whose sub-nodes are all of
   * known rules; its tag is spelled by the last name sub-node (NONE without
   * one), and its inner and trailing texts are those of the last sub-node
   * of their rule (absent without one); its attributes are those of the
   * last attributes sub-node (absent without one) and its children are
   * built from the last children sub-node (none without one).
   */
  lemma ElementOfFields(p: Pair)
    requires ElementOf(p).Done?
    ensures p.rule == ElementRule
    ensures forall j :: 0 <= j < |p.inner| ==> p.inner[j].rule in KnownRules
    ensures match LastOf(p.inner, NameRules, 0)
      case Some(i) => IsTagName(Trim(p.inner[i].text)) && ElementOf(p).value.name == TagFrom(p.inner[i].text)
      case None => ElementOf(p).value.name == NONE
    ensures ElementOf(p).value.innerText ==
      match LastOf(p.inner, {InnerTextRule}, 0)
      case Some(i) => Some(p.inner[i].text)
      case None => None
    ensures ElementOf(p).value.text ==
      match LastOf(p.inner, {TextRule}, 0)
      case Some(i) => Some(p.inner[i].text)
      case None => None
    ensures match LastOf(p.inner, {AttributesRule}, 0)
      case Some(i) => AttributesOf(p.inner[i]).Ok? && ElementOf(p).value.attributes == AttributesOf(p.inner[i]).value
      case None => ElementOf(p).value.attributes == None
    ensures match LastOf(p.inner, {ChildrenRule}, 0)
      case Some(i) => ElementsOf(p.inner[i], 0).Done? && ElementOf(p).value.children == Children(ElementsOf(p.inner[i], 0).value)
      case None => ElementOf(p).value.children == NoChildren
  {
    FillFromKnownRules(p, 0, DefaultElement());
    FillFromName(p, 0, DefaultElement());
    FillFromInnerText(p, 0, DefaultElement());
    FillFromText(p, 0, DefaultElement());
    FillFromAttributes(p, 0, DefaultElement());
    FillFromChildren(p, 0, DefaultElement());
  }

  /** A built children list holds one element per sub-node, each built from it. */
  lemma {:induction false} ElementsOfSpec(q: Pair, m: nat)
    requires m <= |q.inner| && ElementsOf(q, m).Done?
    ensures |ElementsOf(q, m).value| == |q.inner| - m
    ensures forall i :: m <= i < |q.inner| ==>
      ElementOf(q.inner[i]).Done? && ElementsOf(q, m).value[i - m] == ElementOf(q.inner[i]).value
    decreases |q.inner| - m
  {
    if m < |q.inner| {
      ElementsOfSpec(q, m + 1);
      var rest := ElementsOf(q, m + 1).value;
      var all := ElementsOf(q, m).value;
      assert all == [ElementOf(q.inner[m]).value] + rest;
      forall i | m < i < |q.inner|
        ensures all[i - m] == ElementOf(q.inner[i]).value
      {
        assert all[i - m] == rest[i - (m + 1)];
      }
    }
  }

  // ---------------------------------------------------------------------
  // get_elements
  // ---------------------------------------------------------------------

  /**
   * What `get_elements` makes of the grammar's top-level nodes: each
   * element node built in order, the doctype and end-of-input skipped; any
   * other node is unreachable and panics.
   */
  function TopElements(ps: seq<Pair>): Outcome<seq<Element>>
  {
    if ps == [] then Done([])
    else if ps[0].rule == ElementRule then
      match ElementOf(ps[0])
      case Done(e) => Prepend([e], TopElements(ps[1..]))
      case Failed(err) => Failed(err)
      case Panicked(m) => Panicked(m)
    else if ps[0].rule == DoctypeRule || ps[0].rule == EoiRule then TopElements(ps[1..])
    else Panicked("unreachable rule")
  }

  /** The element nodes among `ps`, in order. */
  function ElementNodes(ps: seq<Pair>): (r: seq<Pair>)
    ensures forall i :: 0 <= i < |r| ==> r[i].rule == ElementRule && r[i] in ps
  {
    if ps == [] then []
    else (if ps[0].rule == ElementRule then [ps[0]] else []) + ElementNodes(ps[1..])
  }

  /**
   * `get_elements` succeeds with one element per element node, built from
   * it, and only when every top-level node is an element, the doctype or
   * the end of input.
   */
  lemma {:induction false} TopElementsSpec(ps: seq<Pair>)
    requires TopElements(ps).Done?
    ensures forall i :: 0 <= i < |ps| ==> ps[i].rule in {ElementRule, DoctypeRule, EoiRule}
    ensures |TopElements(ps).value| == |ElementNodes(ps)|
    ensures forall i :: 0 <= i < |ElementNodes(ps)| ==>
      ElementOf(ElementNodes(ps)[i]).Done? && TopElements(ps).value[i] == ElementOf(ElementNodes(ps)[i]).value
  {
    if ps != [] {
      TopElementsSpec(ps[1..]);
      var nodes := ElementNodes(ps);
      var rest := ElementNodes(ps[1..]);
      var es := TopElements(ps).value;
      var restEs := TopElements(ps[1..]).value;
      forall i | 0 <= i < |ps| ensures ps[i].rule in {ElementRule, DoctypeRule, EoiRule} {
        if i > 0 { assert ps[i] == ps[1..][i - 1]; }
      }
      if ps[0].rule == ElementRule {
        assert nodes == [ps[0]] + rest;
        assert es == [ElementOf(ps[0]).value] + restEs;
        forall i | 0 < i < |nodes|
          ensures ElementOf(nodes[i]).Done? && es[i] == ElementOf(nodes[i]).value
        {
          assert nodes[i] == rest[i - 1] && es[i] == restEs[i - 1];
        }
      } else {
        assert nodes == rest;
      }
    }
  }

  /** `get_elements`, from the grammar's top-level nodes. */
  method GetElements(ps: seq<Pair>) returns (r: Outcome<seq<Element>>)
    ensures r == TopElements(ps)
  {
    var elements: seq<Element> := [];
    for i := 0 to |ps|
      invariant TopElements(ps) == Prepend(elements, TopElements(ps[i..]))
    {
      var pair := ps[i];
      assert ps[i..][0] == pair && ps[i..][1..] == ps[i + 1..];
      if pair.rule == ElementRule {
        var e := MakeElement(pair);
        match e {
          case Failed(err) =>
            return Failed(err);
          case Panicked(m) =>
            return Panicked(m);
          case Done(el) =>
            PrependPrepend(elements, [el], TopElements(ps[i + 1..]));
            elements := elements + [el];
        }
      } else if pair.rule == DoctypeRule || pair.rule == EoiRule {
      } else {
        return Panicked("unreachable rule");
      }
    }
    assert elements + [] == elements;
    return Done(elements);
  }

  // ---------------------------------------------------------------------
  // get_bookmarks
  // ---------------------------------------------------------------------

  /** The number of elements in a tree, counting the element itself. */
  function ElementSize(e: Element): nat
    decreases e
  {
    1 + match e.children
        case NoChildren => 0
        case Children(cs) => ForestSize(cs)
  }

  function ForestSize(es: seq<Element>): nat
    decreases es
  {
    if es == [] then 0 else ElementSize(es[0]) + ForestSize(es[1..])
  }

  lemma ForestSizeHead(es: seq<Element>)
    requires es != []
    ensures ForestSize(es[1..]) < ForestSize(es)
    ensures ElementSize(es[0]) <= ForestSize(es)
    ensures es[0].children.Children? ==> ForestSize(es[0].children.elements) < ForestSize(es)
  {
  }

  lemma {:induction false} ElementWithinForest(es: seq<Element>, i: nat)
    requires i < |es|
    ensures ElementSize(es[i]) <= ForestSize(es)
    ensures ForestSize(es[i..]) == ElementSize(es[i]) + ForestSize(es[i + 1..])
    ensures ForestSize(es[i + 1..]) < ForestSize(es[i..]) <= ForestSize(es)
  {
    if i > 0 {
      ElementWithinForest(es[1..], i - 1);
      assert es[1..][i - 1..] == es[i..] && es[1..][i..] == es[i + 1..];
    }
  }

  /**
   * A timestamp attribute: its integer value when present (an error when it
   * is not an integer), the current time when absent.
   */
  function Timestamp(attrs: map<string, string>, key: string, now: int): (r: Result<int>)
    ensures key in attrs ==> (r.Ok? <==> ParseI64(attrs[key]).Some?)
    ensures key in attrs && r.Ok? ==> ParseI64(attrs[key]) == Some(r.value)
    ensures key !in attrs ==> r == Ok(now)
  {
    if key in attrs then
      match ParseI64(attrs[key])
      case Some(v) => Ok(v)
      case None => Err(ParseErrorText(attrs[key]))
    else Ok(now)
  }

  /** The non-empty comma-separated pieces of the `TAGS` attribute (none without one). */
  function AttributeTags(attrs: map<string, string>): seq<string>
  {
    NonEmpty(Split(if "TAGS" in attrs then attrs["TAGS"] else "", ','))
  }

  /**
   * The tags of an anchor: its `TAGS` pieces, then every label in scope
   * when folder labels are wanted, each kept once. The program collects them
   * through a hash set, whose order is unspecified; this model keeps first
   * occurrences in order.
   */
  function AnchorTags(attrs: map<string, string>, labels: seq<string>, addFolderLabels: bool): (r: seq<string>)
    ensures NoDup(r)
    ensures forall x :: x in r <==> x in AttributeTags(attrs) || (addFolderLabels && x in labels)
  {
    var all := AttributeTags(attrs) + (if addFolderLabels then labels else []);
    DedupElements(all);
    Dedup(all)
  }

  /**
   * The bookmark of an anchor element: the link is `HREF` as written, the
   * name is the trimmed inner text with whitespace runs squeezed, the
   * description is the trailing text. Missing attributes or a missing
   * `HREF` panic; a timestamp that is not an integer is an error.
   */
  function AnchorOf(e: Element, labels: seq<string>, addFolderLabels: bool, now: int): (r: Outcome<Bookmark>)
    ensures r.Panicked? <==> e.attributes.None? || "HREF" !in e.attributes.value
    ensures r.Failed? <==>
      && e.attributes.Some? && "HREF" in e.attributes.value
      && (Timestamp(e.attributes.value, "ADD_DATE", now).Err? ||
          Timestamp(e.attributes.value, "LAST_MODIFIED", now).Err?)
    ensures r.Done? ==> r.value.link == e.attributes.value["HREF"]
    ensures r.Done? ==> r.value.name == Squeeze(Trim(e.innerText.GetOr("")))
    ensures r.Done? ==> r.value.addedAt == Timestamp(e.attributes.value, "ADD_DATE", now).value
    ensures r.Done? ==> r.value.lastModified == Timestamp(e.attributes.value, "LAST_MODIFIED", now).value
    ensures r.Done? ==> r.value.tags == TagList(AnchorTags(e.attributes.value, labels, addFolderLabels))
    ensures r.Done? ==> r.value.description == e.text.GetOr("")
  {
    if e.attributes.None? then Panicked("called `Option::unwrap()` on a `None` value")
    else
      var attrs := e.attributes.value;
      var tags := AnchorTags(attrs, labels, addFolderLabels);
      if "HREF" !in attrs then Panicked("called `Option::unwrap()` on a `None` value")
      else
        var link := attrs["HREF"];
        match Timestamp(attrs, "ADD_DATE", now)
        case Err(err) => Failed(err)
        case Ok(addedAt) =>
          match Timestamp(attrs, "LAST_MODIFIED", now)
          case Err(err) => Failed(err)
          case Ok(lastModified) =>
            Done(Bookmark(
              Squeeze(Trim(e.innerText.GetOr(""))),
              link,
              addedAt,
              lastModified,
              TagList(tags),
              e.text.GetOr("")))
  }

  /** How the walk turns an anchor, with the labels in scope at it, into a bookmark. */
  type AnchorBuilder = ((Element, seq<string>)) -> Outcome<Bookmark>

  /** The builder `get_bookmarks` uses: `AnchorOf` with the run's flag and clock reading. */
  function Builder(addFolderLabels: bool, now: int): AnchorBuilder
  {
    (anchor: (Element, seq<string>)) => AnchorOf(anchor.0, anchor.1, addFolderLabels, now)
  }

  predicate IsHeading(e: Element) {
    e.name == TITLE || e.name == H1 || e.name == H3
  }

  /**
   * What `get_bookmarks` returns for `es` with `labels` in scope: headings
   * add their inner text to the labels seen by later siblings (and what
   * they contain); every other element contributes what `Visit` makes of
   * it, in order, and the first error or panic ends the walk. `build` turns
   * an anchor into a bookmark; `get_bookmarks` uses `Builder(flag, now)`.
   */
  function Walk(es: seq<Element>, labels: seq<string>, build: AnchorBuilder): Outcome<seq<Bookmark>>
    decreases ForestSize(es), 1
  {
    if es == [] then Done([])
    else
      var e := es[0];
      ForestSizeHead(es);
      if IsHeading(e) then Walk(es[1..], labels + [e.innerText.GetOr("")], build)
      else Then(Visit(e, labels, build), Walk(es[1..], labels, build))
  }

  /**
   * One element of the walk that is not a heading: a `DL` is walked with a
   * copy of the labels, an anchor gives its bookmark, an element without a
   * name is unreachable and the other tags give nothing. A `DL` without
   * children is an error.
   */
  function Visit(e: Element, labels: seq<string>, build: AnchorBuilder): Outcome<seq<Bookmark>>
    decreases ElementSize(e), 0
  {
    if e.name == DL then
      match e.children
      case NoChildren => Failed("Failed to get element children")
      case Children(cs) => Walk(cs, labels, build)
    else if e.name == A then
      match build((e, labels))
      case Done(b) => Done([b])
      case Failed(err) => Failed(err)
      case Panicked(m) => Panicked(m)
    else if e.name == NONE then Panicked("unreachable element name")
    else Done([])
  }

  /** `get_bookmarks`. */
  method GetBookmarks(elements: seq<Element>, scope: seq<string>, addFolderLabels: bool, now: int)
    returns (r: Outcome<seq<Bookmark>>)
    ensures r == Walk(elements, scope, Builder(addFolderLabels, now))
    decreases ForestSize(elements), 1
  {
    var bookmarks: seq<Bookmark> := [];
    var labels := scope;
    for i := 0 to |elements|
      invariant Walk(elements, scope, Builder(addFolderLabels, now)) ==
        Prepend(bookmarks, Walk(elements[i..], labels, Builder(addFolderLabels, now)))
    {
      var element := elements[i];
      ElementWithinForest(elements, i);
      WalkAt(elements, i, labels, Builder(addFolderLabels, now));
      if IsHeading(element) {
        labels := labels + [element.innerText.GetOr("")];
      } else {
        var found := VisitElement(element, labels, addFolderLabels, now);
        if !found.Done? {
          return if found.Failed? then Failed(found.error) else Panicked(found.reason);
        }
        PrependPrepend(bookmarks, found.value, Walk(elements[i + 1..], labels, Builder(addFolderLabels, now)));
        bookmarks := bookmarks + found.value;
      }
    }
    assert bookmarks + [] == bookmarks;
    return Done(bookmarks);
  }

  /** The arms of the loop of `get_bookmarks` for an element that is not a heading. */
  method VisitElement(element: Element, labels: seq<string>, addFolderLabels: bool, now: int)
    returns (r: Outcome<seq<Bookmark>>)
    ensures r == Visit(element, labels, Builder(addFolderLabels, now))
    decreases ElementSize(element), 0
  {
    if element.name == DL {
      if element.children.NoChildren? {
        return Failed("Failed to get element children");
      }
      r := GetBookmarks(element.children.elements, labels, addFolderLabels, now);
    } else if element.name == A {
      var bk := AnchorOf(element, labels, addFolderLabels, now);
      assert Builder(addFolderLabels, now)((element, labels)) == bk;
      match bk {
        case Failed(err) =>
          return Failed(err);
        case Panicked(m) =>
          return Panicked(m);
        case Done(b) =>
          return Done([b]);
      }
    } else if element.name == NONE {
      return Panicked("unreachable element name");
    } else {
      return Done([]);
    }
  }

  /** `Walk` from position `i` on, unfolded once. */
  lemma WalkAt(es: seq<Element>, i: nat, labels: seq<string>, build: AnchorBuilder)
    requires i < |es|
    ensures Walk(es[i..], labels, build) ==
      if IsHeading(es[i]) then Walk(es[i + 1..], labels + [es[i].innerText.GetOr("")], build)
      else Then(Visit(es[i], labels, build), Walk(es[i + 1..], labels, build))
  {
    assert es[i..][0] == es[i] && es[i..][1..] == es[i + 1..];
  }

  /** The labels the headings among `es` (not those nested in a `DL`) push, in order. */
  function Headings(es: seq<Element>): seq<string>
  {
    if es == [] then []
    else (if IsHeading(es[0]) then [es[0].innerText.GetOr("")] else []) + Headings(es[1..])
  }

  /**
   * Label scoping: walking `es1 + es2` is walking `es1` and then `es2` with
   * the labels of the headings at the top level of `es1` added. Labels
   * pushed inside a `DL` of `es1` do not reach `es2`.
   */
  lemma {:induction false} WalkAppend(es1: seq<Element>, es2: seq<Element>, labels: seq<string>,
                                      build: AnchorBuilder)
    ensures Walk(es1 + es2, labels, build) ==
      Then(Walk(es1, labels, build), Walk(es2, labels + Headings(es1), build))
    decreases |es1|
  {
    if es1 == [] {
      assert es1 + es2 == es2 && labels + [] == labels;
      var w := Walk(es2, labels, build);
      if w.Done? { assert [] + w.value == w.value; }
    } else {
      var e := es1[0];
      if IsHeading(e) {
        WalkAppend(es1[1..], es2, labels + [e.innerText.GetOr("")], build);
        WalkAppendHeading(es1, es2, labels, build);
      } else {
        WalkAppend(es1[1..], es2, labels, build);
        WalkAppendVisit(es1, es2, labels, build);
      }
    }
  }

  /** The step of `WalkAppend` for a heading at the front of `es1`. */
  lemma WalkAppendHeading(es1: seq<Element>, es2: seq<Element>, labels: seq<string>, build: AnchorBuilder)
    requires es1 != [] && IsHeading(es1[0])
    requires var inner := labels + [es1[0].innerText.GetOr("")];
      Walk(es1[1..] + es2, inner, build) ==
      Then(Walk(es1[1..], inner, build), Walk(es2, inner + Headings(es1[1..]), build))
    ensures Walk(es1 + es2, labels, build) ==
      Then(Walk(es1, labels, build), Walk(es2, labels + Headings(es1), build))
  {
    var joined := es1 + es2;
    assert joined[0] == es1[0] && joined[1..] == es1[1..] + es2;
    WalkFront(joined, labels, build);
    WalkFront(es1, labels, build);
    HeadingsFront(es1, labels);
  }

  /** The step of `WalkAppend` for any other element at the front of `es1`. */
  lemma WalkAppendVisit(es1: seq<Element>, es2: seq<Element>, labels: seq<string>, build: AnchorBuilder)
    requires es1 != [] && !IsHeading(es1[0])
    requires Walk(es1[1..] + es2, labels, build) ==
      Then(Walk(es1[1..], labels, build), Walk(es2, labels + Headings(es1[1..]), build))
    ensures Walk(es1 + es2, labels, build) ==
      Then(Walk(es1, labels, build), Walk(es2, labels + Headings(es1), build))
  {
    var joined := es1 + es2;
    assert joined[0] == es1[0] && joined[1..] == es1[1..] + es2;
    WalkFront(joined, labels, build);
    WalkFront(es1, labels, build);
    HeadingsFront(es1, labels);
    ThenAssoc(Visit(es1[0], labels, build), Walk(es1[1..], labels, build),
      Walk(es2, labels + Headings(es1), build));
  }

  /** One step of the walk at the front of a non-empty forest. */
  lemma WalkFront(es: seq<Element>, labels: seq<string>, build: AnchorBuilder)
    requires es != []
    ensures Walk(es, labels, build) ==
      if IsHeading(es[0]) then Walk(es[1..], labels + [es[0].innerText.GetOr("")], build)
      else Then(Visit(es[0], labels, build), Walk(es[1..], labels, build))
  {
  }

  /** The labels of the top-level headings, after those already in scope. */
  lemma HeadingsFront(es: seq<Element>, labels: seq<string>)
    requires es != []
    ensures IsHeading(es[0]) ==> labels + Headings(es) == labels + [es[0].innerText.GetOr("")] + Headings(es[1..])
    ensures !IsHeading(es[0]) ==> Headings(es) == Headings(es[1..])
  {
    if IsHeading(es[0]) {
      assert labels + ([es[0].innerText.GetOr("")] + Headings(es[1..]))
        == labels + [es[0].innerText.GetOr("")] + Headings(es[1..]);
    } else {
      assert [] + Headings(es[1..]) == Headings(es[1..]);
    }
  }

  /** A heading adds its inner text (or "") to the labels of everything after it. */
  lemma WalkHeading(h: Element, rest: seq<Element>, labels: seq<string>, build: AnchorBuilder)
    requires IsHeading(h)
    ensures Walk([h] + rest, labels, build) ==
      Walk(rest, labels + [h.innerText.GetOr("")], build)
  {
    assert ([h] + rest)[1..] == rest;
  }

  /** `DT`, `DD`, `P`, `META` and `DOCTYPE` elements give nothing and leave the labels alone. */
  lemma WalkSkips(e: Element, rest: seq<Element>, labels: seq<string>, build: AnchorBuilder)
    requires e.name in {DT, DD, P, META, DOCTYPE}
    ensures Walk([e] + rest, labels, build) == Walk(rest, labels, build)
  {
    assert ([e] + rest)[1..] == rest;
    var w := Walk(rest, labels, build);
    if w.Done? { assert [] + w.value == w.value; }
  }

  /** Once the walk reaches a `DL` without children, the whole walk is that error. */
  lemma WalkMissingChildren(before: seq<Element>, dl: Element, after: seq<Element>,
                            labels: seq<string>, build: AnchorBuilder)
    requires dl.name == DL && dl.children.NoChildren?
    requires Walk(before, labels, build).Done?
    ensures Walk(before + [dl] + after, labels, build) == Failed("Failed to get element children")
  {
    WalkAppend(before, [dl] + after, labels, build);
    assert before + [dl] + after == before + ([dl] + after);
  }

  /**
   * The anchors the walk reaches, in depth-first document order, each with
   * the labels in scope at it: the headings before it at its own level and
   * at every enclosing `DL` level.
   */
  function AnchorsIn(es: seq<Element>, labels: seq<string>): seq<(Element, seq<string>)>
    decreases ForestSize(es), 1
  {
    if es == [] then []
    else
      var e := es[0];
      ForestSizeHead(es);
      if IsHeading(e) then AnchorsIn(es[1..], labels + [e.innerText.GetOr("")])
      else AnchorsAt(e, labels) + AnchorsIn(es[1..], labels)
  }

  /** The anchors `Visit` reaches in `e`: `e` itself, or those inside a `DL`. */
  function AnchorsAt(e: Element, labels: seq<string>): seq<(Element, seq<string>)>
    decreases ElementSize(e), 0
  {
    if e.name == DL && e.children.Children? then AnchorsIn(e.children.elements, labels)
    else if e.name == A then [(e, labels)]
    else []
  }


  /**
   * A successful walk gives exactly one bookmark per anchor it reaches, in
   * depth-first document order, each built from that anchor with the labels
   * in scope there.
   */
  lemma {:induction false} WalkAnchors(es: seq<Element>, labels: seq<string>, build: AnchorBuilder)
    requires Walk(es, labels, build).Done?
    ensures MadeBy(AnchorsIn(es, labels), Walk(es, labels, build).value, build)
    decreases ForestSize(es), 1
  {
    if es != [] {
      var e := es[0];
      ForestSizeHead(es);
      if IsHeading(e) {
        WalkAnchors(es[1..], labels + [e.innerText.GetOr("")], build);
      } else {
        VisitAnchors(e, labels, build);
        WalkAnchors(es[1..], labels, build);
        MadeByAppend(AnchorsAt(e, labels), Visit(e, labels, build).value,
          AnchorsIn(es[1..], labels), Walk(es[1..], labels, build).value, build);
      }
    }
  }

  lemma {:induction false} VisitAnchors(e: Element, labels: seq<string>, build: AnchorBuilder)
    requires Visit(e, labels, build).Done?
    ensures MadeBy(AnchorsAt(e, labels), Visit(e, labels, build).value, build)
    decreases ElementSize(e), 0
  {
    if e.name == DL {
      WalkAnchors(e.children.elements, labels, build);
    } else if e.name == A {
      var b := build((e, labels));
      MadeBySingle((e, labels), b.value, build);
    }
  }

  /** Every anchor's labels extend the labels the walk started with. */
  lemma {:induction false} AnchorScopes(es: seq<Element>, labels: seq<string>)
    ensures forall i :: 0 <= i < |AnchorsIn(es, labels)| ==> labels <= AnchorsIn(es, labels)[i].1
    decreases ForestSize(es), 1
  {
    if es != [] {
      var e := es[0];
      ForestSizeHead(es);
      var all := AnchorsIn(es, labels);
      if IsHeading(e) {
        var inner := labels + [e.innerText.GetOr("")];
        AnchorScopes(es[1..], inner);
        forall i | 0 <= i < |all| ensures labels <= all[i].1 {
          assert labels <= inner <= all[i].1;
        }
      } else {
        AnchorScopesAt(e, labels);
        AnchorScopes(es[1..], labels);
        var first := AnchorsAt(e, labels);
        forall i | 0 <= i < |all| ensures labels <= all[i].1 {
          if i >= |first| { assert all[i] == AnchorsIn(es[1..], labels)[i - |first|]; }
        }
      }
    }
  }

  lemma {:induction false} AnchorScopesAt(e: Element, labels: seq<string>)
    ensures forall i :: 0 <= i < |AnchorsAt(e, labels)| ==> labels <= AnchorsAt(e, labels)[i].1
    decreases ElementSize(e), 0
  {
    if e.name == DL && e.children.Children? {
      AnchorScopes(e.children.elements, labels);
    }
  }

  /**
   * The tags of every imported bookmark hold no duplicates; as a set they
   * are the anchor's `TAGS` pieces, together with the labels in scope when
   * folder labels are wanted.
   */
  lemma WalkTags(es: seq<Element>, labels: seq<string>, addFolderLabels: bool, now: int, i: nat)
    requires Walk(es, labels, Builder(addFolderLabels, now)).Done?
    requires i < |Walk(es, labels, Builder(addFolderLabels, now)).value|
    ensures i < |AnchorsIn(es, labels)|
    ensures var b := Walk(es, labels, Builder(addFolderLabels, now)).value[i];
      var (anchor, scope) := if i < |AnchorsIn(es, labels)| then AnchorsIn(es, labels)[i] else (DefaultElement(), []);
      && anchor.attributes.Some?
      && NoDup(b.tags.items)
      && forall x :: x in b.tags.items <==>
           x in AttributeTags(anchor.attributes.value) || (addFolderLabels && x in scope)
  {
    WalkAnchors(es, labels, Builder(addFolderLabels, now));
    MadeByAt(AnchorsIn(es, labels), Walk(es, labels, Builder(addFolderLabels, now)).value, Builder(addFolderLabels, now), i);
  }

  // ---------------------------------------------------------------------
  // parse_str
  // ---------------------------------------------------------------------

  /**
   * What `parse_str` returns, given what the grammar made of the file (its
   * syntax error, or the top-level nodes): the bookmarks of the elements,
   * walked with no labels in scope.
   */
  function ParseOutcome(parsed: Result<seq<Pair>>, addFolderLabels: bool, now: int): Outcome<seq<Bookmark>>
  {
    match parsed
    case Err(e) => Failed(e)
    case Ok(ps) =>
      match TopElements(ps)
      case Done(es) => Walk(es, [], Builder(addFolderLabels, now))
      case Failed(e) => Failed(e)
      case Panicked(m) => Panicked(m)
  }

  /** `parse_str`; the grammar itself is not part of this model, its result is the input. */
  method ParseStr(parsed: Result<seq<Pair>>, addFolderLabels: bool, now: int) returns (r: Outcome<seq<Bookmark>>)
    ensures r == ParseOutcome(parsed, addFolderLabels, now)
  {
    if parsed.Err? {
      return Failed(parsed.error);
    }
    var elements := GetElements(parsed.value);
    if elements.Failed? {
      return Failed(elements.error);
    }
    if elements.Panicked? {
      return Panicked(elements.reason);
    }
    r := GetBookmarks(elements.value, [], addFolderLabels, now);
  }
}
