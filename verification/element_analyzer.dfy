/** `ElementAnalyzer`: candidate interactive elements of a page, elements newly
    revealed between two snapshots, and a modal dialog that appeared between two
    snapshots. */
module ElementAnalyzer {
  import opened Wrappers
  import opened Seqs
  import opened PyText
  import opened Dom
  import opened Dedup

  // ===========================================================================
  // find_potential_interactive_elements

  /** One entry of the candidate list. */
  datatype Candidate = Candidate(text: string, tag: string, classes: seq<string>, id: string)

  const InteractiveSelectors: seq<Selector> := [
    Inside("nav", Tag("a")), Inside("nav", Tag("button")), Inside("nav", Tag("li")),
    Inside("header", Tag("a")), Inside("header", Tag("button")),
    AttrIs("role", "button"), AttrIs("role", "menuitem"),
    Both(Tag("a"), HasAttr("href")), Tag("button"),
    Both(Tag("div"), HasAttr("onclick")), Both(Tag("div"), HasAttr("onmouseover")),
    AttrHas("class", "menu"), AttrHas("class", "nav"),
    AttrHas("class", "dropdown"), AttrHas("class", "link")
  ]

  /** `_get_element_text`: the element's text with whitespace collapsed. */
  function ElementText(e: Element): (t: string)
    ensures Collapsed(t)
  {
    NormalizeCollapsed(GetText(e));
    Normalize(GetText(e))
  }

  /** The set built from every selector's matches. Tags compare (and hash) by
      name, attributes and contents, so equal-looking tags count once. */
  ghost function FoundElements(doc: Document): set<Element> {
    set l | l in AllElements(doc) && MatchesAny(InteractiveSelectors, l) :: l.element
  }

  /** The primary pass keeps a found element when its text is non-empty and
      shorter than 200 characters. */
  predicate Listable(e: Element) {
    var t := ElementText(e);
    t != "" && |t| < 200
  }

  /** The fallback pass keeps every `a` and `button` with non-empty text. */
  predicate FallbackTarget(e: Element) {
    (e.name == "a" || e.name == "button") && ElementText(e) != ""
  }

  ghost function PrimaryElements(doc: Document): set<Element> {
    set e | e in FoundElements(doc) && Listable(e)
  }

  /** The elements behind the candidate list. The primary pass lists each
      qualifying found element once, in the set's iteration order; the
      fallback runs only when that pass lists nothing. */
  ghost function InteractiveSources(doc: Document): (r: seq<Element>)
    ensures PrimaryElements(doc) != {} ==>
      && |r| == |PrimaryElements(doc)|
      && Distinct(r)
      && forall e :: e in r <==> e in FoundElements(doc) && Listable(e)
    ensures PrimaryElements(doc) == {} ==>
      forall e :: e in r <==> e in ElementsOf(AllElements(doc)) && FallbackTarget(e)
  {
    var primary := PrimaryElements(doc);
    if primary != {} then Enumerate(primary)
    else Filter(ElementsOf(AllElements(doc)), FallbackTarget)
  }

  /** The fallback lists the qualifying `a` and `button` elements in document
      order, one entry per pre-order position: the one at position `i` is
      entry number `CountWhere(all, FallbackTarget, i)`, those numbers strictly
      increase with `i`, and there are no other entries. */
  lemma FallbackInDocumentOrder(doc: Document)
    requires PrimaryElements(doc) == {}
    ensures var all := ElementsOf(AllElements(doc));
      |InteractiveSources(doc)| == CountWhere(all, FallbackTarget, |all|)
    ensures var all := ElementsOf(AllElements(doc));
      forall i :: 0 <= i < |all| && FallbackTarget(all[i]) ==>
        && CountWhere(all, FallbackTarget, i) < |InteractiveSources(doc)|
        && InteractiveSources(doc)[CountWhere(all, FallbackTarget, i)] == all[i]
    ensures var all := ElementsOf(AllElements(doc));
      forall i, j :: 0 <= i < j <= |all| && FallbackTarget(all[i]) ==>
        CountWhere(all, FallbackTarget, i) < CountWhere(all, FallbackTarget, j)
  {
    var all := ElementsOf(AllElements(doc));
    assert InteractiveSources(doc) == Filter(all, FallbackTarget);
    FilterPositions(all, FallbackTarget);
    forall i, j | 0 <= i < j <= |all| && FallbackTarget(all[i])
      ensures CountWhere(all, FallbackTarget, i) < CountWhere(all, FallbackTarget, j)
    {
      CountWhereGrows(all, FallbackTarget, i, j);
    }
  }

  function ToCandidate(e: Element): Candidate {
    Candidate(ElementText(e), e.name, e.classes, AttrOr(e, "id", ""))
  }

  /** What every source element satisfies, per pass. */
  lemma SourcesQualify(doc: Document)
    ensures forall k :: 0 <= k < |InteractiveSources(doc)| ==>
      && ElementText(InteractiveSources(doc)[k]) != ""
      && (PrimaryElements(doc) != {} ==> |ElementText(InteractiveSources(doc)[k])| < 200)
      && (PrimaryElements(doc) == {} ==> FallbackTarget(InteractiveSources(doc)[k]))
  {
    var src := InteractiveSources(doc);
    forall k | 0 <= k < |src|
      ensures ElementText(src[k]) != ""
      ensures PrimaryElements(doc) != {} ==> |ElementText(src[k])| < 200
      ensures PrimaryElements(doc) == {} ==> FallbackTarget(src[k])
    {
      assert src[k] in src;
    }
  }

  /** One candidate per element, field by field. */
  lemma CandidatesOf(src: seq<Element>)
    ensures forall k :: 0 <= k < |src| ==> var c := Map(ToCandidate, src)[k];
      && c.tag == src[k].name && c.text == ElementText(src[k])
      && c.classes == src[k].classes && c.id == AttrOr(src[k], "id", "")
  {
  }

  /** `find_potential_interactive_elements`. */
  ghost function FindPotentialInteractiveElements(doc: Document): (r: seq<Candidate>)
    ensures |r| == |InteractiveSources(doc)|
    ensures forall k :: 0 <= k < |r| ==> r[k].text != "" && Collapsed(r[k].text)
    ensures PrimaryElements(doc) != {} ==> forall k :: 0 <= k < |r| ==> |r[k].text| < 200
    ensures PrimaryElements(doc) == {} ==> forall k :: 0 <= k < |r| ==> r[k].tag == "a" || r[k].tag == "button"
    ensures forall k :: 0 <= k < |r| ==> var e := InteractiveSources(doc)[k];
      && r[k].tag == e.name
      && r[k].text == ElementText(e)
      && r[k].classes == e.classes
      && r[k].id == AttrOr(e, "id", "")
  {
    SourcesQualify(doc);
    CandidatesOf(InteractiveSources(doc));
    Map(ToCandidate, InteractiveSources(doc))
  }

  // ===========================================================================
  // compare_doms

  /** One newly revealed element. */
  datatype Revealed = Revealed(text: string, tag: string, href: string, classes: seq<string>)

  /** A `(tag name, classes)` pair, the structural fallback's unit of novelty. */
  datatype Signature = Signature(tag: string, classes: seq<string>)

  /** Every non-empty element text of a document. */
  function InitialTexts(doc: Document): set<string> {
    set l | l in AllElements(doc) && GetText(l.element) != "" :: GetText(l.element)
  }

  const RevealTags: set<string> := {"a", "button", "div", "span"}

  /** `final_soup.find_all(['a', 'button', 'div', 'span'])`. */
  function RevealCandidates(doc: Document): seq<Located> {
    Filter(AllElements(doc), (l: Located) => l.element.name in RevealTags)
  }

  /** `tag.find_parent(name)`: the closest ancestor with that name. */
  function NearestAncestor(ancestors: seq<Element>, name: string): (r: Option<Element>)
    ensures r.None? <==> forall k :: 0 <= k < |ancestors| ==> ancestors[k].name != name
    ensures r.Some? ==> exists k :: 0 <= k < |ancestors| && ancestors[k] == r.value && r.value.name == name
                           && forall j :: k < j < |ancestors| ==> ancestors[j].name != name
  {
    if |ancestors| == 0 then None
    else if ancestors[|ancestors| - 1].name == name then Some(ancestors[|ancestors| - 1])
    else NearestAncestor(ancestors[..|ancestors| - 1], name)
  }

  /** The link target of a revealed element: its own `href` for an `a`, else
      the `href` of the closest enclosing `a`, else "". */
  function Href(l: Located): (r: string)
    ensures l.element.name == "a" ==> r == AttrOr(l.element, "href", "")
    ensures l.element.name != "a" && (forall k :: 0 <= k < |l.ancestors| ==> l.ancestors[k].name != "a") ==> r == ""
    ensures forall k :: l.element.name != "a" && 0 <= k < |l.ancestors| && l.ancestors[k].name == "a"
                        && (forall j :: k < j < |l.ancestors| ==> l.ancestors[j].name != "a") ==>
              r == AttrOr(l.ancestors[k], "href", "")
  {
    if l.element.name == "a" then AttrOr(l.element, "href", "")
    else match NearestAncestor(l.ancestors, "a")
      case Some(a) => AttrOr(a, "href", "")
      case None => ""
  }

  function RevealOf(l: Located): Revealed {
    Revealed(GetText(l.element), l.element.name, Href(l), l.element.classes)
  }

  function TextKey(l: Located): string {
    GetText(l.element)
  }

  /** The text test of the diff: non-empty and not an element text of the
      initial document. */
  function NewTextTest(initialTexts: set<string>): string -> bool {
    (t: string) => t != "" && t !in initialTexts
  }

  /** The text path of `compare_doms`. */
  function TextReveals(initial: Document, final: Document): (r: seq<Revealed>)
    ensures forall k :: 0 <= k < |r| ==>
      && r[k].tag in RevealTags
      && r[k].text != "" && r[k].text !in InitialTexts(initial)
    ensures forall a, b :: 0 <= a < b < |r| ==> r[a].text != r[b].text
  {
    var cands := RevealCandidates(final);
    var keep := NewTextTest(InitialTexts(initial));
    NewTextsSpec(cands, InitialTexts(initial));
    FirstsProperties(cands, TextKey, keep);
    var f := Firsts(cands, TextKey, keep);
    assert forall k :: 0 <= k < |f| ==> f[k] in cands;
    Map(RevealOf, f)
  }

  /** The text path is the reference first-of-each-text selection over the
      candidates, in document order. */
  lemma TextRevealsIsRef(initial: Document, final: Document)
    ensures TextReveals(initial, final)
         == Map(RevealOf, FirstsRef(RevealCandidates(final), TextKey, NewTextTest(InitialTexts(initial)), 0))
  {
    FirstsIsRef(RevealCandidates(final), TextKey, NewTextTest(InitialTexts(initial)));
  }

  /** The first-of-each-text selection over any candidate list and any set of
      known texts: new texts only, none twice, none missed. */
  lemma NewTextsSpec(cands: seq<Located>, known: set<string>)
    ensures var r := Map(RevealOf, Firsts(cands, TextKey, NewTextTest(known)));
      && (forall k :: 0 <= k < |r| ==> r[k].text != "" && r[k].text !in known)
      && (forall a, b :: 0 <= a < b < |r| ==> r[a].text != r[b].text)
      && (forall l :: l in cands && GetText(l.element) != "" && GetText(l.element) !in known ==>
            exists k :: 0 <= k < |r| && r[k].text == GetText(l.element))
  {
    var keep := NewTextTest(known);
    FirstsProperties(cands, TextKey, keep);
    var f := Firsts(cands, TextKey, keep);
    var r := Map(RevealOf, f);
    assert forall k :: 0 <= k < |r| ==> r[k].text == TextKey(f[k]);
    forall l | l in cands && GetText(l.element) != "" && GetText(l.element) !in known
      ensures exists k :: 0 <= k < |r| && r[k].text == GetText(l.element)
    {
      NewTextListed(cands, known, l);
    }
  }

  /** A candidate with a new text has that text listed. */
  lemma NewTextListed(cands: seq<Located>, known: set<string>, l: Located)
    requires l in cands && GetText(l.element) != "" && GetText(l.element) !in known
    ensures var r := Map(RevealOf, Firsts(cands, TextKey, NewTextTest(known)));
      exists k :: 0 <= k < |r| && r[k].text == GetText(l.element)
  {
    var keep := NewTextTest(known);
    FirstsProperties(cands, TextKey, keep);
    var f := Firsts(cands, TextKey, keep);
    var r := Map(RevealOf, f);
    var j :| 0 <= j < |cands| && cands[j] == l;
    assert keep(TextKey(cands[j]));
    var k :| 0 <= k < |f| && TextKey(f[k]) == TextKey(cands[j]);
    assert r[k].text == TextKey(f[k]);
  }

  /** Every entry of the text path has a text that is non-empty and absent from
      the initial document, no two entries share a text, and every such text
      among the candidates is listed. */
  lemma TextRevealsSpec(initial: Document, final: Document)
    ensures var r := TextReveals(initial, final);
      && (forall k :: 0 <= k < |r| ==> r[k].text != "" && r[k].text !in InitialTexts(initial))
      && (forall a, b :: 0 <= a < b < |r| ==> r[a].text != r[b].text)
      && (forall l :: l in RevealCandidates(final) && GetText(l.element) != "" && GetText(l.element) !in InitialTexts(initial) ==>
            exists k :: 0 <= k < |r| && r[k].text == GetText(l.element))
  {
    NewTextsSpec(RevealCandidates(final), InitialTexts(initial));
  }

  /** The text path finds something exactly when some candidate carries a new text. */
  lemma TextRevealsNonEmpty(initial: Document, final: Document)
    ensures TextReveals(initial, final) != [] <==> HasNewText(initial, final)
  {
    TextRevealsSpec(initial, final);
    var cands := RevealCandidates(final);
    var keep := NewTextTest(InitialTexts(initial));
    FirstsProperties(cands, TextKey, keep);
    var f := Firsts(cands, TextKey, keep);
    if f != [] {
      assert f[0] in cands && keep(TextKey(f[0]));
    }
  }

  function SignatureOf(e: Element): Signature {
    Signature(e.name, e.classes)
  }

  /** The set of `(tag name, classes)` pairs of a document. */
  function Signatures(doc: Document): set<Signature> {
    set l | l in AllElements(doc) :: SignatureOf(l.element)
  }

  function FromSignature(s: Signature): Revealed {
    Revealed("", s.tag, "", s.classes)
  }

  /** The signatures of `final` that `initial` lacks. */
  function NewSignatures(initial: Document, final: Document): set<Signature> {
    Signatures(final) - Signatures(initial)
  }

  /** At most ten signatures of a set, in the set's iteration order, as
      revealed entries with no text and no link. */
  ghost function ListSignatures(sigs: set<Signature>): (r: seq<Revealed>)
    ensures |r| == if |sigs| < 10 then |sigs| else 10
    ensures forall k :: 0 <= k < |r| ==>
      && r[k].text == "" && r[k].href == ""
      && Signature(r[k].tag, r[k].classes) in sigs
    ensures forall a, b :: 0 <= a < b < |r| ==>
      Signature(r[a].tag, r[a].classes) != Signature(r[b].tag, r[b].classes)
  {
    var all := Enumerate(sigs);
    var listed := Take(all, 10);
    assert forall k :: 0 <= k < |listed| ==> listed[k] == all[k] && all[k] in sigs;
    assert Distinct(listed);
    Map(FromSignature, listed)
  }

  /** The structural fallback: at most ten signatures of the final document that
      the initial one lacks, taken in the set's iteration order. */
  ghost function StructuralReveals(initial: Document, final: Document): (r: seq<Revealed>)
    ensures |r| == if |NewSignatures(initial, final)| < 10 then |NewSignatures(initial, final)| else 10
    ensures forall k :: 0 <= k < |r| ==>
      && r[k].text == "" && r[k].href == ""
      && Signature(r[k].tag, r[k].classes) in NewSignatures(initial, final)
    ensures forall a, b :: 0 <= a < b < |r| ==>
      Signature(r[a].tag, r[a].classes) != Signature(r[b].tag, r[b].classes)
  {
    ListSignatures(NewSignatures(initial, final))
  }

  /** Some candidate of the final document carries a text the initial one lacks. */
  predicate HasNewText(initial: Document, final: Document) {
    exists l :: l in RevealCandidates(final) && GetText(l.element) != "" && GetText(l.element) !in InitialTexts(initial)
  }

  /** `compare_doms`: revealed elements by text, or, only when no candidate
      carries a new text, by new structure. */
  ghost function CompareDoms(initial: Document, final: Document): (r: seq<Revealed>)
    ensures HasNewText(initial, final) ==>
      && |r| > 0
      && (forall k :: 0 <= k < |r| ==> r[k].text != "" && r[k].text !in InitialTexts(initial))
      && (forall a, b :: 0 <= a < b < |r| ==> r[a].text != r[b].text)
    ensures !HasNewText(initial, final) ==>
      && |r| == (if |NewSignatures(initial, final)| < 10 then |NewSignatures(initial, final)| else 10)
      && forall k :: 0 <= k < |r| ==>
           && r[k].text == "" && r[k].href == ""
           && Signature(r[k].tag, r[k].classes) in NewSignatures(initial, final)
    ensures TextReveals(initial, final) != [] ==> r == TextReveals(initial, final)
    ensures TextReveals(initial, final) == [] ==> r == StructuralReveals(initial, final)
  {
    TextRevealsSpec(initial, final);
    TextRevealsNonEmpty(initial, final);
    var byText := TextReveals(initial, final);
    if byText != [] then byText
    else StructuralReveals(initial, final)
  }

  /** Every element's text of a document is one of its initial texts, or empty. */
  lemma OwnTextsAreInitial(doc: Document, l: Located)
    requires l in AllElements(doc)
    ensures GetText(l.element) == "" || GetText(l.element) in InitialTexts(doc)
  {
  }

  /** A snapshot compared with itself reveals nothing. */
  lemma CompareDomsSame(doc: Document)
    ensures CompareDoms(doc, doc) == []
  {
    forall l | l in RevealCandidates(doc)
      ensures GetText(l.element) == "" || GetText(l.element) in InitialTexts(doc)
    {
      OwnTextsAreInitial(doc, l);
    }
    assert !HasNewText(doc, doc);
    assert NewSignatures(doc, doc) == {};
  }

  // ===========================================================================
  // analyze_modal_dialog

  datatype Button = Button(text: string, tag: string, kind: string, href: string)

  datatype Modal = Modal(title: string, fullText: string, buttons: seq<Button>)

  const ModalSelectors: seq<Selector> := [
    AttrIs("role", "dialog"), AttrIs("role", "alertdialog"),
    HasClass("modal"), HasClass("popup"), HasClass("dialog"),
    AttrHas("class", "modal"), AttrHas("class", "popup"),
    AttrHas("class", "dialog"), AttrHas("class", "overlay"),
    Both(Tag("div"), AttrHas("style", "fixed")), Both(Tag("div"), AttrHas("style", "absolute"))
  ]

  /** Each modal selector's matches, selector by selector. */
  function MatchLists(doc: Document): (r: seq<seq<Located>>)
    ensures |r| == |ModalSelectors|
    ensures forall s :: 0 <= s < |r| ==> r[s] == Select(doc, ModalSelectors[s])
  {
    Map((sel: Selector) => Select(doc, sel), ModalSelectors)
  }

  /** An element matching some modal selector is in that selector's list. */
  lemma MatchListsComplete(doc: Document, l: Located)
    requires l in AllElements(doc) && MatchesAny(ModalSelectors, l)
    ensures l in Concat(MatchLists(doc))
  {
    var s :| 0 <= s < |ModalSelectors| && Matches(ModalSelectors[s], l);
    assert l in MatchLists(doc)[s];
  }

  /** `potential_modals`: each selector's matches in document order, one
      selector after the other, repeats included. */
  function ModalCandidates(doc: Document): (r: seq<Element>)
    ensures forall e :: e in r ==> e in ElementsOf(AllElements(doc))
    ensures forall l :: l in AllElements(doc) && MatchesAny(ModalSelectors, l) ==> l.element in r
  {
    var perSelector := MatchLists(doc);
    var found := Concat(perSelector);
    forall l | l in AllElements(doc) && MatchesAny(ModalSelectors, l) ensures l.element in ElementsOf(found) {
      MatchListsComplete(doc, l);
      var k :| 0 <= k < |found| && found[k] == l;
      assert ElementsOf(found)[k] == l.element;
    }
    forall e | e in ElementsOf(found) ensures e in ElementsOf(AllElements(doc)) {
      var k :| 0 <= k < |found| && found[k].element == e;
      assert found[k] in found;
      var s :| 0 <= s < |perSelector| && found[k] in perSelector[s];
      var j :| 0 <= j < |AllElements(doc)| && AllElements(doc)[j] == found[k];
      assert ElementsOf(AllElements(doc))[j] == e;
    }
    ElementsOf(found)
  }

  /** How many matches the first `s` modal selectors have together. */
  function MatchesBefore(doc: Document, s: nat): nat
    requires s <= |ModalSelectors|
  {
    if s == 0 then 0 else MatchesBefore(doc, s - 1) + |Select(doc, ModalSelectors[s - 1])|
  }

  lemma {:induction false} MatchesBeforeIsBlockStart(doc: Document, s: nat)
    requires s <= |ModalSelectors|
    ensures MatchesBefore(doc, s) == BlockStart(MatchLists(doc), s)
    decreases s
  {
    if s > 0 {
      MatchesBeforeIsBlockStart(doc, s - 1);
    }
  }

  /** The candidates are the selectors' match lists laid end to end: the
      matches of selector `s`, in document order, fill exactly the positions
      `[MatchesBefore(doc, s), MatchesBefore(doc, s + 1))`, and nothing
      follows the last selector's matches. */
  lemma ModalCandidatesBySelector(doc: Document, s: nat)
    requires s < |ModalSelectors|
    ensures MatchesBefore(doc, s + 1) <= MatchesBefore(doc, |ModalSelectors|) == |ModalCandidates(doc)|
    ensures ModalCandidates(doc)[MatchesBefore(doc, s)..MatchesBefore(doc, s + 1)]
         == ElementsOf(Select(doc, ModalSelectors[s]))
  {
    var lists := MatchLists(doc);
    var found := Concat(lists);
    MatchesBeforeIsBlockStart(doc, s);
    MatchesBeforeIsBlockStart(doc, s + 1);
    MatchesBeforeIsBlockStart(doc, |ModalSelectors|);
    ConcatBlocks(lists, s);
    var lo := BlockStart(lists, s);
    var hi := BlockStart(lists, s + 1);
    assert ElementsOf(found)[lo..hi] == ElementsOf(found[lo..hi]);
  }

  /** How many of `words` occur in no initial text. */
  function NewWordCount(words: seq<string>, initialTexts: set<string>): (n: nat)
    ensures n <= |words|
  {
    if |words| == 0 then 0
    else (if forall t :: t in initialTexts ==> !Contains(t, words[0]) then 1 else 0)
         + NewWordCount(words[1..], initialTexts)
  }

  /** A selector match is the modal when its text is longer than 10 characters
      and more than max(1, n/4) of its n words occur in no initial text. */
  predicate LooksNew(e: Element, initialTexts: set<string>) {
    var text := GetText(e);
    var words := Words(text);
    var novel := NewWordCount(words, initialTexts);
    text != "" && |text| > 10 && novel > 1 && 4 * novel > |words|
  }

  const BlockTags: set<string> := {"div", "section", "aside"}

  /** A `div`, `section` or `aside` whose text is longer than 30 characters and
      is not exactly an initial text. */
  predicate LargeNewBlock(e: Element, initialTexts: set<string>) {
    var t := GetText(e);
    e.name in BlockTags && t != "" && |t| > 30 && t !in initialTexts
  }

  /** The first candidate that looks new against `known`, else the first large
      new block among `blocks`. */
  function ContainerFrom(candidates: seq<Element>, blocks: seq<Located>, known: set<string>): (r: Option<Element>)
    ensures r.None? <==>
      && (forall e :: e in candidates ==> !LooksNew(e, known))
      && (forall e :: e in ElementsOf(blocks) ==> !LargeNewBlock(e, known))
    ensures r.Some? && (exists e :: e in candidates && LooksNew(e, known)) ==>
      exists k :: 0 <= k < |candidates| && candidates[k] == r.value && LooksNew(r.value, known)
        && forall j :: 0 <= j < k ==> !LooksNew(candidates[j], known)
    ensures r.Some? && !(exists e :: e in candidates && LooksNew(e, known)) ==>
      exists k :: 0 <= k < |blocks| && blocks[k].element == r.value && LargeNewBlock(r.value, known)
        && forall j :: 0 <= j < k ==> !LargeNewBlock(blocks[j].element, known)
  {
    match FirstWhere(candidates, (e: Element) => LooksNew(e, known))
    case Some(c) => Some(c)
    case None =>
      assert forall e :: e in candidates ==> !LooksNew(e, known);
      var r := FirstWhere(ElementsOf(blocks), (e: Element) => LargeNewBlock(e, known));
      assert forall k :: 0 <= k < |blocks| ==> ElementsOf(blocks)[k] == blocks[k].element;
      r
  }

  /** The container `analyze_modal_dialog` settles on: the first selector match
      that looks new, else the first large new block of the final document. */
  function ModalContainer(initial: Document, final: Document): (r: Option<Element>)
    ensures r.None? <==>
      && (forall e :: e in ModalCandidates(final) ==> !LooksNew(e, InitialTexts(initial)))
      && (forall e :: e in ElementsOf(AllElements(final)) ==> !LargeNewBlock(e, InitialTexts(initial)))
    ensures r.Some? && (exists e :: e in ModalCandidates(final) && LooksNew(e, InitialTexts(initial))) ==>
      exists k :: 0 <= k < |ModalCandidates(final)| && ModalCandidates(final)[k] == r.value
        && LooksNew(r.value, InitialTexts(initial))
        && forall j :: 0 <= j < k ==> !LooksNew(ModalCandidates(final)[j], InitialTexts(initial))
    ensures r.Some? && !(exists e :: e in ModalCandidates(final) && LooksNew(e, InitialTexts(initial))) ==>
      exists k :: 0 <= k < |AllElements(final)| && AllElements(final)[k].element == r.value
        && LargeNewBlock(r.value, InitialTexts(initial))
        && forall j :: 0 <= j < k ==> !LargeNewBlock(AllElements(final)[j].element, InitialTexts(initial))
  {
    ContainerFrom(ModalCandidates(final), AllElements(final), InitialTexts(initial))
  }

  /** No word of a text from the initial document counts as new. */
  lemma {:induction false} NoNewWords(words: seq<string>, text: string, initialTexts: set<string>)
    requires text in initialTexts
    requires forall k :: 0 <= k < |words| ==> Contains(text, words[k])
    ensures NewWordCount(words, initialTexts) == 0
    decreases |words|
  {
    if |words| > 0 {
      assert Contains(text, words[0]);
      NoNewWords(words[1..], text, initialTexts);
    }
  }

  /** A snapshot compared with itself shows no modal. */
  lemma ModalContainerSame(doc: Document)
    ensures ModalContainer(doc, doc).None?
  {
    var it := InitialTexts(doc);
    forall e | e in ElementsOf(AllElements(doc))
      ensures GetText(e) == "" || GetText(e) in it
    {
      var k :| 0 <= k < |AllElements(doc)| && ElementsOf(AllElements(doc))[k] == e;
      OwnTextsAreInitial(doc, AllElements(doc)[k]);
    }
    forall e | e in ModalCandidates(doc)
      ensures !LooksNew(e, it)
    {
      var text := GetText(e);
      if text != "" {
        WordsInText(text);
        NoNewWords(Words(text), text, it);
      }
    }
  }

  // --- title

  const HeadingLevels: seq<string> := ["h1", "h2", "h3", "h4"]

  /** Some element of `ds` is named `name`. */
  predicate HasNamed(ds: seq<Located>, name: string) {
    exists k :: 0 <= k < |ds| && ds[k].element.name == name
  }

  /** The heading the title comes from, searched among the elements `ds` below
      the container: for the first level in `levels` that occurs in `ds` at all,
      the first element of that level in document order. */
  function HeadingFrom(ds: seq<Located>, levels: seq<string>): (r: Option<Element>)
    ensures r.None? <==> forall i :: 0 <= i < |levels| ==> !HasNamed(ds, levels[i])
    ensures r.Some? ==> exists i :: 0 <= i < |levels| && HeadingAt(ds, levels, i, r.value)
  {
    if |levels| == 0 then None
    else match FirstWhere(ds, (l: Located) => l.element.name == levels[0])
      case Some(h) =>
        assert HeadingAt(ds, levels, 0, h.element);
        Some(h.element)
      case None =>
        var rest := HeadingFrom(ds, levels[1..]);
        assert forall i :: 1 <= i < |levels| ==> levels[1..][i - 1] == levels[i];
        if rest.Some? then
          assert exists i :: 0 <= i < |levels| && HeadingAt(ds, levels, i, rest.value) by {
            var i :| 0 <= i < |levels[1..]| && HeadingAt(ds, levels[1..], i, rest.value);
            assert HeadingAt(ds, levels, i + 1, rest.value);
          }
          rest
        else rest
  }

  /** `h` is the first element of `ds` at level `levels[i]`, and no earlier
      level occurs in `ds`. */
  ghost predicate HeadingAt(ds: seq<Located>, levels: seq<string>, i: nat, h: Element)
    requires i < |levels|
  {
    && (forall j :: 0 <= j < i ==> !HasNamed(ds, levels[j]))
    && exists k :: 0 <= k < |ds| && ds[k].element == h && h.name == levels[i]
         && forall m :: 0 <= m < k ==> ds[m].element.name != levels[i]
  }

  /** At most one heading is the one `HeadingAt` describes. */
  lemma HeadingAtUnique(ds: seq<Located>, levels: seq<string>, i: nat, h: Element, j: nat, g: Element)
    requires i < |levels| && j < |levels|
    requires HeadingAt(ds, levels, i, h) && HeadingAt(ds, levels, j, g)
    ensures i == j && h == g
  {
    var a :| 0 <= a < |ds| && ds[a].element == h && h.name == levels[i]
         && forall m :: 0 <= m < a ==> ds[m].element.name != levels[i];
    var b :| 0 <= b < |ds| && ds[b].element == g && g.name == levels[j]
         && forall m :: 0 <= m < b ==> ds[m].element.name != levels[j];
    assert HasNamed(ds, levels[i]) && HasNamed(ds, levels[j]);
    assert ds[a].element.name == levels[i] && ds[b].element.name == levels[j];
  }

  /** A direct child's text qualifies as a title when it is 2 to 199 characters long. */
  predicate ChildTitleOk(t: string) {
    t != "" && 1 < |t| < 200
  }

  /** The first direct child whose text qualifies, else "". */
  function ChildTitle(children: seq<Node>): (r: string)
    ensures r == "" <==> forall k :: 0 <= k < |children| ==> !ChildTitleOk(NodeText(children[k]))
    ensures r != "" ==> 1 < |r| < 200
    ensures r != "" ==> exists k :: 0 <= k < |children| && NodeText(children[k]) == r
                          && forall j :: 0 <= j < k ==> !ChildTitleOk(NodeText(children[j]))
  {
    var texts := Map(NodeText, children);
    FirstWhere(texts, ChildTitleOk).GetOr("")
  }

  /** The modal title: the text of the heading `HeadingFrom` picks when that text
      is non-empty, else the first qualifying child text, else "". */
  function ModalTitle(c: Element): (r: string)
    ensures match HeadingFrom(Descendants(c), HeadingLevels)
      case Some(h) => if GetText(h) != "" then r == GetText(h) else r == ChildTitle(c.children)
      case None => r == ChildTitle(c.children)
    ensures (forall i :: 0 <= i < |HeadingLevels| ==> !HasNamed(Descendants(c), HeadingLevels[i])) ==>
      r == ChildTitle(c.children)
    ensures forall i, h :: 0 <= i < |HeadingLevels| && HeadingAt(Descendants(c), HeadingLevels, i, h) ==>
      r == if GetText(h) != "" then GetText(h) else ChildTitle(c.children)
  {
    forall i, h | 0 <= i < |HeadingLevels| && HeadingAt(Descendants(c), HeadingLevels, i, h)
      ensures HeadingFrom(Descendants(c), HeadingLevels) == Some(h)
    {
      var g := HeadingFrom(Descendants(c), HeadingLevels);
      assert HasNamed(Descendants(c), HeadingLevels[i]);
      var j :| 0 <= j < |HeadingLevels| && HeadingAt(Descendants(c), HeadingLevels, j, g.value);
      HeadingAtUnique(Descendants(c), HeadingLevels, i, h, j, g.value);
    }
    match HeadingFrom(Descendants(c), HeadingLevels)
    case Some(h) => if GetText(h) != "" then GetText(h) else ChildTitle(c.children)
    case None => ChildTitle(c.children)
  }

  /** The first `h1` below the container with non-empty text is the title,
      whatever headings of other levels come before it in the document. */
  lemma TitlePrefersH1(c: Element, k: nat)
    requires k < |Descendants(c)| && Descendants(c)[k].element.name == "h1"
    requires forall m :: 0 <= m < k ==> Descendants(c)[m].element.name != "h1"
    requires GetText(Descendants(c)[k].element) != ""
    ensures ModalTitle(c) == GetText(Descendants(c)[k].element)
  {
    var ds := Descendants(c);
    assert HasNamed(ds, HeadingLevels[0]);
    var h := HeadingFrom(ds, HeadingLevels);
    var i :| 0 <= i < |HeadingLevels| && HeadingAt(ds, HeadingLevels, i, h.value);
    assert i == 0;
    var k' :| 0 <= k' < |ds| && ds[k'].element == h.value && h.value.name == HeadingLevels[0]
         && forall m :: 0 <= m < k' ==> ds[m].element.name != HeadingLevels[0];
    assert k' == k;
  }

  // --- buttons

  const ButtonSelectors: seq<Selector> := [
    Tag("button"), Both(Tag("a"), AttrIs("role", "button")), Tag("a"),
    Both(Tag("input"), AttrIs("type", "button")), Both(Tag("input"), AttrIs("type", "submit"))
  ]

  function ButtonOf(l: Located): Button {
    Button(GetText(l.element), l.element.name, AttrOr(l.element, "type", ""), AttrOr(l.element, "href", ""))
  }

  /** A button is listed when its text is non-empty and shorter than 80 characters. */
  predicate ButtonTextOk(t: string) {
    t != "" && |t| < 80
  }

  /** The controls below the container, in document order. */
  function ButtonElements(c: Element): seq<Located> {
    Filter(Descendants(c), (l: Located) => MatchesAny(ButtonSelectors, l))
  }

  /** The modal's buttons: the first control of each acceptable text, in
      document order. */
  function ModalButtons(c: Element): (r: seq<Button>)
    ensures forall k :: 0 <= k < |r| ==> ButtonTextOk(r[k].text)
    ensures forall a, b :: 0 <= a < b < |r| ==> r[a].text != r[b].text
  {
    var f := Firsts(ButtonElements(c), TextKey, ButtonTextOk);
    FirstsProperties(ButtonElements(c), TextKey, ButtonTextOk);
    Map(ButtonOf, f)
  }

  /** Every acceptable control text below the container is listed, and the
      list is the reference first-of-each-text selection. */
  lemma ModalButtonsComplete(c: Element)
    ensures ModalButtons(c) == Map(ButtonOf, FirstsRef(ButtonElements(c), TextKey, ButtonTextOk, 0))
    ensures forall l :: l in ButtonElements(c) && ButtonTextOk(GetText(l.element)) ==>
              exists k :: 0 <= k < |ModalButtons(c)| && ModalButtons(c)[k].text == GetText(l.element)
  {
    var controls := ButtonElements(c);
    var f := Firsts(controls, TextKey, ButtonTextOk);
    FirstsIsRef(controls, TextKey, ButtonTextOk);
    FirstsProperties(controls, TextKey, ButtonTextOk);
    var r := ModalButtons(c);
    assert forall k :: 0 <= k < |r| ==> r[k].text == TextKey(f[k]);
    forall l | l in controls && ButtonTextOk(GetText(l.element))
      ensures exists k :: 0 <= k < |r| && r[k].text == GetText(l.element)
    {
      var j :| 0 <= j < |controls| && controls[j] == l;
      var k :| 0 <= k < |f| && TextKey(f[k]) == TextKey(controls[j]);
      assert r[k].text == TextKey(f[k]);
    }
  }

  /** `analyze_modal_dialog`. */
  function AnalyzeModalDialog(initial: Document, final: Document): (r: Option<Modal>)
    ensures r.None? <==> ModalContainer(initial, final).None?
    ensures r.Some? ==> var c := ModalContainer(initial, final).value;
      && r.value.fullText == GetText(c)
      && r.value.title == ModalTitle(c)
      && r.value.buttons == ModalButtons(c)
    ensures r.Some? ==> |r.value.fullText| > 10 && r.value.fullText !in InitialTexts(initial)
    ensures r.Some? ==> forall k :: 0 <= k < |r.value.buttons| ==> ButtonTextOk(r.value.buttons[k].text)
    ensures r.Some? ==> forall a, b :: 0 <= a < b < |r.value.buttons| ==> r.value.buttons[a].text != r.value.buttons[b].text
  {
    ContainerIsNew(initial, final);
    match ModalContainer(initial, final)
    case None => None
    case Some(c) => Some(Modal(ModalTitle(c), GetText(c), ModalButtons(c)))
  }

  /** The container's text is longer than 10 characters and is not the text
      of any element of the initial page. */
  lemma ContainerIsNew(initial: Document, final: Document)
    ensures ModalContainer(initial, final).Some? ==>
      var t := GetText(ModalContainer(initial, final).value);
      |t| > 10 && t !in InitialTexts(initial)
  {
    var r := ModalContainer(initial, final);
    var it := InitialTexts(initial);
    if r.Some? {
      var t := GetText(r.value);
      if LooksNew(r.value, it) {
        if t in it {
          WordsInText(t);
          NoNewWords(Words(t), t, it);
        }
      }
    }
  }

  /** A snapshot compared with itself yields no modal. */
  lemma AnalyzeModalDialogSame(doc: Document)
    ensures AnalyzeModalDialog(doc, doc).None?
  {
    ModalContainerSame(doc);
  }
}
