/** An already-parsed HTML document and the pieces of BeautifulSoup the analyser
    uses on it: `get_text(strip=True)`, `find_all` (pre-order document order),
    attribute lookup and the CSS selectors that appear in the source, each as a
    predicate on an element and its ancestors. */
module Dom {
  import opened Wrappers
  import opened PyText
  import opened Seqs

  datatype Node = Text(content: string) | Elem(element: Element)

  /** A tag. `classes` is the `class` attribute as BeautifulSoup splits it
      (empty when the attribute is absent); `attrs` holds every other attribute. */
  datatype Element = Element(name: string, classes: seq<string>, attrs: map<string, string>, children: seq<Node>)

  /** The top-level nodes of a parsed page. */
  type Document = seq<Node>

  /** An element found by a search, with its ancestors from the outermost in. */
  datatype Located = At(element: Element, ancestors: seq<Element>)

  // ---------------------------------------------------------------------------
  // text

  function NodeText(n: Node): string
    decreases n
  {
    match n
    case Text(s) => Strip(s)
    case Elem(e) => ChildrenText(e.children)
  }

  function ChildrenText(ns: seq<Node>): string
    decreases ns
  {
    if |ns| == 0 then "" else NodeText(ns[0]) + ChildrenText(ns[1..])
  }

  /** `tag.get_text(strip=True)`. */
  function GetText(e: Element): string {
    ChildrenText(e.children)
  }

  /** The text strings below a node, in document order. */
  function NodeStrings(n: Node): seq<string>
    decreases n
  {
    match n
    case Text(s) => [s]
    case Elem(e) => ChildrenStrings(e.children)
  }

  function ChildrenStrings(ns: seq<Node>): seq<string>
    decreases ns
  {
    if |ns| == 0 then [] else NodeStrings(ns[0]) + ChildrenStrings(ns[1..])
  }

  /** Each string stripped, concatenated with no separator. */
  function ConcatStripped(ss: seq<string>): string {
    if |ss| == 0 then "" else Strip(ss[0]) + ConcatStripped(ss[1..])
  }

  lemma {:induction false} ConcatStrippedAppend(a: seq<string>, b: seq<string>)
    ensures ConcatStripped(a + b) == ConcatStripped(a) + ConcatStripped(b)
    decreases |a|
  {
    if |a| > 0 {
      assert (a + b)[1..] == a[1..] + b;
      ConcatStrippedAppend(a[1..], b);
    } else {
      assert a + b == b;
    }
  }

  /** The text of a node is the concatenation of its stripped strings. */
  lemma {:induction false} NodeTextIsStrippedStrings(n: Node)
    ensures NodeText(n) == ConcatStripped(NodeStrings(n))
    decreases n
  {
    match n
    case Text(s) =>
    case Elem(e) => ChildrenTextIsStrippedStrings(e.children);
  }

  lemma {:induction false} ChildrenTextIsStrippedStrings(ns: seq<Node>)
    ensures ChildrenText(ns) == ConcatStripped(ChildrenStrings(ns))
    decreases ns
  {
    if |ns| > 0 {
      NodeTextIsStrippedStrings(ns[0]);
      ChildrenTextIsStrippedStrings(ns[1..]);
      ConcatStrippedAppend(NodeStrings(ns[0]), ChildrenStrings(ns[1..]));
    }
  }

  /** `get_text(strip=True)` is the stripped descendant strings, joined with "". */
  lemma GetTextIsStrippedStrings(e: Element)
    ensures GetText(e) == ConcatStripped(ChildrenStrings(e.children))
  {
    ChildrenTextIsStrippedStrings(e.children);
  }

  // ---------------------------------------------------------------------------
  // traversal

  /** Every element among `ns` and below, in pre-order, each with its ancestors. */
  function ElementsIn(ns: seq<Node>, ancestors: seq<Element>): seq<Located>
    decreases ns
  {
    if |ns| == 0 then [] else NodeElements(ns[0], ancestors) + ElementsIn(ns[1..], ancestors)
  }

  function NodeElements(n: Node, ancestors: seq<Element>): seq<Located>
    decreases n
  {
    match n
    case Text(_) => []
    case Elem(e) => [At(e, ancestors)] + ElementsIn(e.children, ancestors + [e])
  }

  /** `soup.find_all(True)`. */
  function AllElements(doc: Document): seq<Located> {
    ElementsIn(doc, [])
  }

  /** The elements strictly below `e`, as `e.find_all(True)` lists them. */
  function Descendants(e: Element): seq<Located> {
    ElementsIn(e.children, [e])
  }

  function ElementsOf(ls: seq<Located>): (r: seq<Element>)
    ensures |r| == |ls|
    ensures forall k :: 0 <= k < |ls| ==> r[k] == ls[k].element
  {
    Map((l: Located) => l.element, ls)
  }

  // ---------------------------------------------------------------------------
  // attributes and selectors

  /** `tag.get(key)`: the class list reads as its space-joined value. */
  function Attr(e: Element, key: string): Option<string> {
    if key == "class" then (if |e.classes| == 0 then None else Some(Join(e.classes, " ")))
    else if key in e.attrs then Some(e.attrs[key])
    else None
  }

  /** `tag.get(key, default)`. */
  function AttrOr(e: Element, key: string, default: string): string {
    Attr(e, key).GetOr(default)
  }

  /** The CSS selector forms the analyser uses. */
  datatype Selector =
    | Tag(name: string)                          // `a`
    | HasAttr(attr: string)                      // `[href]`
    | AttrIs(attr: string, value: string)        // `[role='button']`
    | AttrHas(attr: string, fragment: string)    // `[class*='menu']`
    | HasClass(cls: string)                      // `.modal`
    | Both(first: Selector, second: Selector)    // `a[href]`
    | Inside(ancestor: string, inner: Selector)  // `nav a`

  predicate Matches(sel: Selector, l: Located) {
    match sel
    case Tag(n) => l.element.name == n
    case HasAttr(a) => Attr(l.element, a).Some?
    case AttrIs(a, v) => Attr(l.element, a) == Some(v)
    case AttrHas(a, f) => |f| > 0 && Attr(l.element, a).Some? && Contains(Attr(l.element, a).value, f)
    case HasClass(c) => c in l.element.classes
    case Both(x, y) => Matches(x, l) && Matches(y, l)
    case Inside(a, inner) => Matches(inner, l) && exists k :: 0 <= k < |l.ancestors| && l.ancestors[k].name == a
  }

  /** A selector list `s1, s2, ...`. */
  predicate MatchesAny(sels: seq<Selector>, l: Located) {
    exists k :: 0 <= k < |sels| && Matches(sels[k], l)
  }

  /** `soup.select(sel)`: matching elements in document order. */
  function Select(doc: Document, sel: Selector): (r: seq<Located>)
    ensures forall l :: l in r <==> l in AllElements(doc) && Matches(sel, l)
  {
    Filter(AllElements(doc), (l: Located) => Matches(sel, l))
  }
}
