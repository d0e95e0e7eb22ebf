/** `LlmService`: the prompt sent to the language model for one observed
    interaction, the canned scenarios written when no model is configured, and
    the clean-up of a model's answer. */
module LlmService {
  import opened Wrappers
  import opened Seqs
  import opened PyText
  import opened ElementAnalyzer

  /** What one probe observed, as `generate_tests` hands it to the writer. */
  datatype Interaction =
    | HoverSeen(url: string, hoverElement: Candidate, revealed: seq<Revealed>)
    | PopupSeen(url: string, clickElement: Candidate, modal: Modal)
    | OtherSeen

  // ===========================================================================
  // service construction

  /** The environment `LLMService()` reads: the API key, if set, and whether
      the Gemini client package could be imported. */
  datatype Setup = Setup(apiKey: Option<string>, packageAvailable: bool)

  /** The writer a constructed service uses. */
  datatype Writer = Stubbed | Gemini

  const PackageMissingMessage := "google.generativeai package not available"

  /** `LLMService()`: without a key every call is stubbed; with a key but no
      client package the constructor raises. */
  function Connect(setup: Setup): (r: Result<Writer, string>)
    ensures r == Success(Stubbed) <==> setup.apiKey.GetOr("") == ""
    ensures r.Failure? <==> setup.apiKey.GetOr("") != "" && !setup.packageAvailable
    ensures r.Failure? ==> r.error == PackageMissingMessage
  {
    if setup.apiKey.GetOr("") == "" then Success(Stubbed)
    else if !setup.packageAvailable then Failure(PackageMissingMessage)
    else Success(Gemini)
  }

  // ===========================================================================
  // prompt

  const HoverPromptHead := "Generate a Gherkin scenario:\nURL = "
  const HoverPromptElement := "\nHover element = "
  const HoverPromptTarget := "\nRevealed element to click = "
  const PopupPromptHead := "Generate two Gherkin popup test scenarios.\nPopup title: "
  const PopupPromptButtons := "\nPopup buttons: "

  function ButtonTexts(buttons: seq<Button>): (r: seq<string>)
    ensures |r| == |buttons|
    ensures forall k :: 0 <= k < |buttons| ==> r[k] == buttons[k].text
  {
    Map((b: Button) => b.text, buttons)
  }

  /** `_build_prompt`. */
  function BuildPrompt(data: Interaction): (r: string)
    ensures data.HoverSeen? && |data.revealed| == 0 ==> r == ""
    ensures data.OtherSeen? ==> r == ""
    ensures data.HoverSeen? && |data.revealed| > 0 ==> HoverPromptHead <= r
    ensures data.PopupSeen? ==> PopupPromptHead <= r
    ensures data.PopupSeen? ==> PopupPromptHead + data.modal.title + PopupPromptButtons <= r
  {
    match data
    case HoverSeen(url, hover, revealed) =>
      if |revealed| == 0 then ""
      else HoverPromptHead + url + HoverPromptElement + hover.text + HoverPromptTarget + revealed[0].text + "\n"
    case PopupSeen(_, _, modal) =>
      PopupPromptHead + modal.title + PopupPromptButtons + ListRepr(ButtonTexts(modal.buttons)) + "\n"
    case OtherSeen => ""
  }

  const SystemPrompt :=
    "You are an expert QA Automation Engineer specializing in BDD.\nOnly output valid Gherkin syntax. No explanations."

  /** What the model is asked: the system prompt, a blank line, the prompt. */
  function FullPrompt(prompt: string): (r: string)
    ensures SystemPrompt <= r
    ensures |r| == |SystemPrompt| + 2 + |prompt| && r[|SystemPrompt| + 2..] == prompt
  {
    SystemPrompt + "\n\n" + prompt
  }

  /** Where the `k`-th quoted text starts in Python's rendering of a list of strings. */
  function ReprOffset(xs: seq<string>, k: nat): nat
    requires k < |xs|
  {
    1 + JoinOffset(ReprEach(xs), ", ", k)
  }

  /** Python's rendering of a list quotes every element, in list order. */
  lemma ListReprPartAt(xs: seq<string>, k: nat)
    requires k < |xs|
    ensures ReprOffset(xs, k) + |PyRepr(xs[k])| <= |ListRepr(xs)|
    ensures ListRepr(xs)[ReprOffset(xs, k)..ReprOffset(xs, k) + |PyRepr(xs[k])|] == PyRepr(xs[k])
    ensures k + 1 < |xs| ==> ReprOffset(xs, k) + |PyRepr(xs[k])| < ReprOffset(xs, k + 1)
  {
    var reprs := ReprEach(xs);
    JoinPartAt(reprs, ", ", k);
    var off := JoinOffset(reprs, ", ", k);
    SliceOfMiddle("[", Join(reprs, ", "), "]", off, off + |reprs[k]|);
  }

  /** The popup prompt up to its button list. */
  function PopupPromptPrefix(modal: Modal): string {
    PopupPromptHead + modal.title + PopupPromptButtons
  }

  /** The popup prompt quotes every button text, in the modal's order: the
      `k`-th quoted text sits `ReprOffset(.., k)` characters after the prefix. */
  lemma PopupPromptListsButtons(url: string, click: Candidate, modal: Modal, k: nat)
    requires k < |modal.buttons|
    ensures var p := BuildPrompt(PopupSeen(url, click, modal));
      var at := |PopupPromptPrefix(modal)| + ReprOffset(ButtonTexts(modal.buttons), k);
      && at + |PyRepr(modal.buttons[k].text)| <= |p|
      && p[at..at + |PyRepr(modal.buttons[k].text)|] == PyRepr(modal.buttons[k].text)
    ensures k + 1 < |modal.buttons| ==>
      ReprOffset(ButtonTexts(modal.buttons), k) + |PyRepr(modal.buttons[k].text)|
        < ReprOffset(ButtonTexts(modal.buttons), k + 1)
  {
    var names := ButtonTexts(modal.buttons);
    ListReprPartAt(names, k);
    var pre := PopupPromptPrefix(modal);
    var list := ListRepr(names);
    var p := BuildPrompt(PopupSeen(url, click, modal));
    assert p == pre + list + "\n";
    var off := ReprOffset(names, k);
    SliceOfMiddle(pre, list, "\n", off, off + |PyRepr(names[k])|);
  }

  /** The popup prompt names, in this order and each after its label, the
      modal's title and the list of its button texts as Python renders it,
      and ends with a line break. */
  lemma PopupPromptFields(url: string, click: Candidate, modal: Modal)
    ensures var p := BuildPrompt(PopupSeen(url, click, modal));
      var list := ListRepr(ButtonTexts(modal.buttons));
      var atTitle := |PopupPromptHead|;
      var atList := atTitle + |modal.title| + |PopupPromptButtons|;
      && |p| == atList + |list| + 1
      && p[..atTitle] == PopupPromptHead
      && p[atTitle..atTitle + |modal.title|] == modal.title
      && p[atTitle + |modal.title|..atList] == PopupPromptButtons
      && p[atList..atList + |list|] == list
      && p[|p| - 1] == '\n'
  {
    var p := BuildPrompt(PopupSeen(url, click, modal));
    var list := ListRepr(ButtonTexts(modal.buttons));
    var a := PopupPromptHead + modal.title;
    var b := a + PopupPromptButtons;
    var c := b + list;
    assert p == c + "\n";
    PrefixOfConcat(c, "\n");
    PrefixOfConcat(b, list);
    PrefixOfConcat(a, PopupPromptButtons);
    PrefixOfConcat(PopupPromptHead, modal.title);
  }

  /** The hover prompt names, in this order and each after its label, the
      page URL, the hovered element's text and the first revealed element's
      text, and ends with a line break. */
  lemma HoverPromptFields(url: string, hover: Candidate, revealed: seq<Revealed>)
    requires |revealed| > 0
    ensures var p := BuildPrompt(HoverSeen(url, hover, revealed));
      var atUrl := |HoverPromptHead|;
      var atHover := atUrl + |url| + |HoverPromptElement|;
      var atTarget := atHover + |hover.text| + |HoverPromptTarget|;
      && |p| == atTarget + |revealed[0].text| + 1
      && p[..atUrl] == HoverPromptHead
      && p[atUrl..atUrl + |url|] == url
      && p[atUrl + |url|..atHover] == HoverPromptElement
      && p[atHover..atHover + |hover.text|] == hover.text
      && p[atHover + |hover.text|..atTarget] == HoverPromptTarget
      && p[atTarget..atTarget + |revealed[0].text|] == revealed[0].text
      && p[|p| - 1] == '\n'
  {
    var p := BuildPrompt(HoverSeen(url, hover, revealed));
    var t := revealed[0].text;
    assert p == HoverPromptHead + url + HoverPromptElement + hover.text + HoverPromptTarget + t + "\n";
    FieldsInPlace(HoverPromptHead, url, HoverPromptElement, hover.text, HoverPromptTarget, t, "\n");
  }

  /** Each of seven concatenated parts sits right after the ones before it. */
  lemma FieldsInPlace(s0: string, s1: string, s2: string, s3: string, s4: string, s5: string, s6: string)
    ensures var p := s0 + s1 + s2 + s3 + s4 + s5 + s6;
      var o1 := |s0|;
      var o2 := o1 + |s1|;
      var o3 := o2 + |s2|;
      var o4 := o3 + |s3|;
      var o5 := o4 + |s4|;
      var o6 := o5 + |s5|;
      && |p| == o6 + |s6|
      && p[..o1] == s0 && p[o1..o2] == s1 && p[o2..o3] == s2 && p[o3..o4] == s3
      && p[o4..o5] == s4 && p[o5..o6] == s5 && p[o6..] == s6
  {
    var a := s0 + s1;
    var b := a + s2;
    var c := b + s3;
    var d := c + s4;
    var e := d + s5;
    PrefixOfConcat(e, s6);
    PrefixOfConcat(d, s5);
    PrefixOfConcat(c, s4);
    PrefixOfConcat(b, s3);
    PrefixOfConcat(a, s2);
    PrefixOfConcat(s0, s1);
  }

  /** The left part of a concatenation is its prefix, and the right part its rest. */
  lemma PrefixOfConcat(a: string, b: string)
    ensures (a + b)[..|a|] == a && (a + b)[|a|..] == b
  {
  }

  lemma SliceOfMiddle(a: string, b: string, c: string, i: nat, j: nat)
    requires i <= j <= |b|
    ensures (a + b + c)[|a| + i..|a| + j] == b[i..j]
  {
  }

  // ===========================================================================
  // canned scenarios

  const ScenarioMarker := "Scenario:"

  /** The literal text around the values interpolated into a template:
      `lits[0] + vals[0] + lits[1] + ... + vals[n-1] + lits[n]`. */
  function Fill(lits: seq<string>, vals: seq<string>): string
    requires |lits| == |vals| + 1
    decreases |vals|
  {
    if |vals| == 0 then lits[0] else lits[0] + vals[0] + Fill(lits[1..], vals[1..])
  }

  // The template lines are written in short literal pieces, each free of a
  // capital S except for the scenario markers themselves.

  const GivenPage := "  Given the user is " + "on the \""
  const HoverTitle := "Feature: Validate " + "hover-based interaction\n\n"
  const HoverScenarioName := " Hover reveals a new " + "clickable item\n" + GivenPage
  const HoverUrlLine := "\" page\n  When the user " + "hovers over the \""
  const HoverTargetLine := "\" element\n  And the " + "user clicks the \""
  const HoverOutcome := "\" link\n  Then the page " + "should navigate to a new URL"

  const HoverLines: seq<string> := [
    HoverTitle + ScenarioMarker + HoverScenarioName, HoverUrlLine, HoverTargetLine, HoverOutcome
  ]

  const PopupTitle := "Feature: Validate " + "popup modal behavior\n\n"
  const CancelScenarioName := " Validate cancel action " + "in modal\n" + GivenPage
  const PopupUrlLine := "\" page\n  When the user " + "clicks the \""
  const PopupTitleLine := "\" button\n  Then a popup " + "should appear with title \""
  const PopupChoiceLine := "\"\n  And the user " + "clicks the \""
  const CancelOutcome := "\" button\n  Then the popup " + "should close and the user " + "should remain on the same page\n\n"
  const ContinueScenarioName := " Validate continue action " + "in modal\n" + GivenPage
  const ContinueOutcome := "\" button\n  Then the page URL " + "should change to a new domain"

  const PopupLines: seq<string> := [
    PopupTitle + ScenarioMarker + CancelScenarioName, PopupUrlLine, PopupTitleLine, PopupChoiceLine,
    CancelOutcome + ScenarioMarker + ContinueScenarioName, PopupUrlLine, PopupTitleLine, PopupChoiceLine,
    ContinueOutcome
  ]

  /** The label of the popup's cancel step: the first button's text, else "Cancel". */
  function CancelLabel(buttons: seq<Button>): (r: string)
    ensures |buttons| > 0 ==> r == buttons[0].text
    ensures |buttons| == 0 ==> r == "Cancel"
  {
    if |buttons| > 0 then buttons[0].text else "Cancel"
  }

  /** The label of the popup's continue step: the second button's text, else "Continue". */
  function ContinueLabel(buttons: seq<Button>): (r: string)
    ensures |buttons| > 1 ==> r == buttons[1].text
    ensures |buttons| <= 1 ==> r == "Continue"
  {
    if |buttons| > 1 then buttons[1].text else "Continue"
  }

  /** The values a canned scenario interpolates, in template order. */
  function StubValues(data: Interaction): seq<string>
    requires data.HoverSeen? ==> |data.revealed| > 0
  {
    match data
    case HoverSeen(url, hover, revealed) => [url, hover.text, revealed[0].text]
    case PopupSeen(url, click, modal) =>
      var title := modal.title;
      [url, click.text, title, CancelLabel(modal.buttons), url, click.text, title, ContinueLabel(modal.buttons)]
    case OtherSeen => []
  }

  /** The canned scenario of the no-model branch of `generate_gherkin_scenario`:
      the template with its values filled in, then stripped. The source only
      reaches the hover template with at least one revealed element. */
  function Stub(data: Interaction): (r: string)
    requires data.HoverSeen? ==> |data.revealed| > 0
    ensures data.OtherSeen? ==> r == ""
  {
    match data
    case HoverSeen(_, _, _) => Strip("\n" + Fill(HoverLines, StubValues(data)) + "\n")
    case PopupSeen(_, _, _) => Strip("\n" + Fill(PopupLines, StubValues(data)) + "\n")
    case OtherSeen => ""
  }

  // ===========================================================================
  // code fences

  const Fence := "```"
  const GherkinFence := "```gherkin"

  /** The clean-up of a model's answer: strip it, and when it holds a fence,
      drop every "```gherkin" and then every remaining "```" and strip again. */
  function Clean(answer: string): (r: string)
    ensures !Contains(r, Fence)
    ensures !Contains(Strip(answer), Fence) ==> r == Strip(answer)
  {
    var s := Strip(answer);
    if Contains(s, Fence) then
      var u := RemoveAll(RemoveAll(s, GherkinFence), Fence);
      NoFenceAfterRemoval(RemoveAll(s, GherkinFence));
      StripKeepsAbsence(u, Fence);
      Strip(u)
    else s
  }

  /** An answer that wraps one block in a "```gherkin" ... "```" fence
      comes back as exactly the text inside the fence. */
  lemma CleanFencedBlock(body: string)
    requires |body| > 0 && !IsSpace(body[0]) && !IsSpace(body[|body| - 1])
    requires '`' !in body
    ensures Clean(GherkinFence + "\n" + body + "\n" + Fence) == body
  {
    var inner := "\n" + body + "\n";
    var answer := GherkinFence + inner + Fence;
    assert GherkinFence + "\n" + body + "\n" + Fence == answer;
    FencedAnswerIsStripped(inner);
    assert Contains(answer, Fence) by {
      assert Fence <= answer;
    }
    GherkinFenceRemoved(inner);
    RemoveAllAfterFree(inner, Fence, Fence);
    assert RemoveAll(Fence, Fence) == "" by {
      assert Fence[|Fence|..] == "";
    }
    assert inner + "" == inner;
    LineStripped(body);
  }

  /** Stripping a line of text framed by two line breaks gives the line. */
  lemma LineStripped(body: string)
    requires |body| > 0 && !IsSpace(body[0]) && !IsSpace(body[|body| - 1])
    ensures Strip("\n" + body + "\n") == body
  {
    var inner := "\n" + body + "\n";
    TrimIs(inner, IsSpace, 1, |inner| - 1);
    assert inner[1..|inner| - 1] == body;
  }

  /** A fenced answer starts and ends with a backtick, so stripping keeps it. */
  lemma FencedAnswerIsStripped(inner: string)
    ensures Strip(GherkinFence + inner + Fence) == GherkinFence + inner + Fence
  {
    var answer := GherkinFence + inner + Fence;
    assert answer[0] == '`' && answer[|answer| - 1] == '`';
    TrimIs(answer, IsSpace, 0, |answer|);
    assert answer[0..|answer|] == answer;
  }

  /** Removing "```gherkin" from a fenced answer drops only the opening fence
      when no other backtick comes before the closing one. */
  lemma GherkinFenceRemoved(inner: string)
    requires '`' !in inner
    ensures RemoveAll(GherkinFence + inner + Fence, GherkinFence) == inner + Fence
  {
    var tail := inner + Fence;
    var answer := GherkinFence + inner + Fence;
    assert GherkinFence <= answer;
    assert answer[|GherkinFence|..] == tail;
    forall k | 0 <= k < |tail| ensures !(GherkinFence <= tail[k..]) {
      if k < |inner| {
        assert tail[k] == inner[k];
      }
    }
    RemoveAllAbsent(tail, GherkinFence);
  }

  /** Stripping cuts a slice out of the text, so it cannot create an occurrence. */
  lemma StripKeepsAbsence(s: string, p: string)
    requires !Contains(s, p)
    ensures !Contains(Strip(s), p)
  {
    var i := LeadingEnd(s, IsSpace, 0);
    var r := Strip(s);
    if Contains(r, p) {
      ContainsInSlice(s, i, i + |r|, p);
    }
  }

  /** A text not starting with a backtick keeps its first character. */
  lemma RemovalKeepsHead(t: string)
    requires |t| > 0 && t[0] != '`'
    ensures |RemoveAll(t, Fence)| > 0 && RemoveAll(t, Fence)[0] == t[0]
  {
  }

  /** A text not starting with two backticks does not start with two after removal. */
  lemma RemovalKeepsShortRun(t: string)
    requires !("``" <= t)
    ensures !("``" <= RemoveAll(t, Fence))
  {
    if |t| > 0 && t[0] == '`' {
      assert !(Fence <= t);
      if |t| > 1 {
        RemovalKeepsHead(t[1..]);
      }
    }
  }

  /** No three backticks survive `RemoveAll(_, "```")`: each run of backticks
      loses whole triples from its start, and runs never merge. */
  lemma {:induction false} NoFenceAfterRemoval(s: string)
    ensures !Contains(RemoveAll(s, Fence), Fence)
    decreases |s|
  {
    if |s| == 0 {
    } else if Fence <= s {
      NoFenceAfterRemoval(s[|Fence|..]);
    } else {
      var rest := RemoveAll(s[1..], Fence);
      NoFenceAfterRemoval(s[1..]);
      var r := [s[0]] + rest;
      assert RemoveAll(s, Fence) == r;
      assert r[1..] == rest;
      if s[0] == '`' {
        assert !("``" <= s[1..]);
        RemovalKeepsShortRun(s[1..]);
      }
      assert !(Fence <= r);
    }
  }

  // ===========================================================================
  // generation

  /** What the model's client returns for one prompt. */
  datatype Reply = Answered(text: string) | ApiError

  /** `generate_gherkin_scenario`. `answer` is the model, as a function of the
      full prompt it is sent; API errors are caught and give "". */
  function GenerateScenario(writer: Writer, data: Interaction, answer: string -> Reply): (r: string)
    ensures BuildPrompt(data) == "" ==> r == ""
    ensures BuildPrompt(data) != "" && writer == Stubbed ==> r == Stub(data)
    ensures BuildPrompt(data) != "" && writer == Gemini ==>
      r == match answer(FullPrompt(BuildPrompt(data)))
           case Answered(t) => Clean(t)
           case ApiError => ""
    ensures writer == Gemini ==> !Contains(r, Fence)
  {
    var prompt := BuildPrompt(data);
    if prompt == "" then ""
    else match writer
      case Stubbed => Stub(data)
      case Gemini =>
        match answer(FullPrompt(prompt))
        case Answered(t) => Clean(t)
        case ApiError => ""
  }

  // ===========================================================================
  // properties of the canned scenarios

  /** Occurrences of `p`, summed over `xs`. */
  function SumCounts(xs: seq<string>, p: string): nat
    requires |p| > 0
  {
    if |xs| == 0 then 0 else Count(xs[0], p) + SumCounts(xs[1..], p)
  }

  /** A filled template starts with its first piece and ends with its last. */
  lemma {:induction false} FillFrame(lits: seq<string>, vals: seq<string>)
    requires |lits| == |vals| + 1
    ensures lits[0] <= Fill(lits, vals)
    ensures |lits[|lits| - 1]| <= |Fill(lits, vals)|
    ensures Fill(lits, vals)[|Fill(lits, vals)| - |lits[|lits| - 1]|..] == lits[|lits| - 1]
    decreases |vals|
  {
    if |vals| > 0 {
      var tl := lits[1..];
      FillFrame(tl, vals[1..]);
      var last := lits[|lits| - 1];
      assert tl[|tl| - 1] == last;
      var rest := Fill(tl, vals[1..]);
      var head := lits[0] + vals[0];
      assert Fill(lits, vals) == head + rest;
      assert lits[0] <= head;
      SuffixOfConcat(head, rest, |last|);
    }
  }

  lemma SuffixOfConcat(a: string, b: string, n: nat)
    requires n <= |b|
    ensures (a + b)[|a + b| - n..] == b[|b| - n..]
  {
  }

  /** When no occurrence can straddle a piece boundary, the occurrences in a
      filled template are those in its pieces plus those in its values. */
  lemma {:induction false} CountFill(lits: seq<string>, vals: seq<string>, p: string)
    requires |p| > 0 && |lits| == |vals| + 1
    requires forall k :: 0 <= k < |vals| ==> |lits[k]| > 0 && lits[k][|lits[k]| - 1] !in p
    requires forall k :: 1 <= k < |lits| ==> |lits[k]| > 0 && lits[k][0] !in p
    ensures Count(Fill(lits, vals), p) == SumCounts(lits, p) + SumCounts(vals, p)
    decreases |vals|
  {
    if |vals| > 0 {
      var rest := Fill(lits[1..], vals[1..]);
      assert forall k :: 1 <= k < |lits[1..]| ==> lits[1..][k] == lits[k + 1];
      CountFill(lits[1..], vals[1..], p);
      FillFrame(lits[1..], vals[1..]);
      assert rest[0] == lits[1][0];
      CountConcat(vals[0], rest, p);
      CountConcat(lits[0], vals[0] + rest, p);
      assert Fill(lits, vals) == lits[0] + (vals[0] + rest);
    }
  }

  /** Text without a capital S holds no scenario marker. */
  lemma NoMarker(s: string)
    requires 'S' !in s
    ensures Count(s, ScenarioMarker) == 0
  {
    CountAbsent(s, ScenarioMarker);
  }

  /** A line holding the marker once, and no other capital S. */
  lemma OneMarker(a: string, b: string)
    requires |a| > 0 && a[|a| - 1] == '\n'
    requires 'S' !in a && 'S' !in b
    ensures Count(a + ScenarioMarker + b, ScenarioMarker) == 1
  {
    var m := ScenarioMarker + b;
    NoMarker(a);
    CountConcat(a, m, ScenarioMarker);
    assert a + ScenarioMarker + b == a + m;
    assert ScenarioMarker <= m;
    assert forall c :: c in m[1..] ==> c in ScenarioMarker[1..] || c in b;
    NoMarker(m[1..]);
  }

  // How many scenario markers each piece of the two templates holds: one in
  // each scenario's opening piece, none in the others.

  lemma HoverHeadCount() ensures Count(HoverLines[0], ScenarioMarker) == 1 {
    OneMarker(HoverTitle, HoverScenarioName);
  }

  lemma HoverUrlLineCount() ensures Count(HoverUrlLine, ScenarioMarker) == 0 {
    NoMarker(HoverUrlLine);
  }

  lemma HoverTargetLineCount() ensures Count(HoverTargetLine, ScenarioMarker) == 0 {
    NoMarker(HoverTargetLine);
  }

  lemma HoverOutcomeCount() ensures Count(HoverOutcome, ScenarioMarker) == 0 {
    NoMarker(HoverOutcome);
  }

  lemma PopupHeadCount() ensures Count(PopupLines[0], ScenarioMarker) == 1 {
    OneMarker(PopupTitle, CancelScenarioName);
  }

  lemma CancelOutcomeShape()
    ensures |CancelOutcome| > 0 && CancelOutcome[|CancelOutcome| - 1] == '\n' && 'S' !in CancelOutcome
  {
  }

  lemma ContinueScenarioNameShape() ensures 'S' !in ContinueScenarioName {
  }

  lemma PopupMiddleCount() ensures Count(PopupLines[4], ScenarioMarker) == 1 {
    CancelOutcomeShape();
    ContinueScenarioNameShape();
    OneMarker(CancelOutcome, ContinueScenarioName);
  }

  lemma PopupUrlLineCount() ensures Count(PopupUrlLine, ScenarioMarker) == 0 {
    NoMarker(PopupUrlLine);
  }

  lemma PopupTitleLineCount() ensures Count(PopupTitleLine, ScenarioMarker) == 0 {
    NoMarker(PopupTitleLine);
  }

  lemma PopupChoiceLineCount() ensures Count(PopupChoiceLine, ScenarioMarker) == 0 {
    NoMarker(PopupChoiceLine);
  }

  lemma ContinueOutcomeCount() ensures Count(ContinueOutcome, ScenarioMarker) == 0 {
    NoMarker(ContinueOutcome);
  }

  lemma HoverLinesCount()
    ensures SumCounts(HoverLines, ScenarioMarker) == 1
  {
    HoverHeadCount();
    HoverUrlLineCount();
    HoverTargetLineCount();
    HoverOutcomeCount();
    var m := ScenarioMarker;
    var t := HoverLines;
    assert SumCounts(t[3..], m) == Count(HoverOutcome, m) + SumCounts(t[4..], m);
    assert SumCounts(t[2..], m) == Count(HoverTargetLine, m) + SumCounts(t[3..], m);
    assert SumCounts(t[1..], m) == Count(HoverUrlLine, m) + SumCounts(t[2..], m);
    assert SumCounts(t, m) == Count(t[0], m) + SumCounts(t[1..], m);
  }

  lemma PopupLinesCount()
    ensures SumCounts(PopupLines, ScenarioMarker) == 2
  {
    PopupHeadCount();
    PopupMiddleCount();
    PopupUrlLineCount();
    PopupTitleLineCount();
    PopupChoiceLineCount();
    ContinueOutcomeCount();
    var m := ScenarioMarker;
    var t := PopupLines;
    assert SumCounts(t[8..], m) == Count(ContinueOutcome, m) + SumCounts(t[9..], m);
    assert SumCounts(t[7..], m) == Count(PopupChoiceLine, m) + SumCounts(t[8..], m);
    assert SumCounts(t[6..], m) == Count(PopupTitleLine, m) + SumCounts(t[7..], m);
    assert SumCounts(t[5..], m) == Count(PopupUrlLine, m) + SumCounts(t[6..], m);
    assert SumCounts(t[4..], m) == Count(t[4], m) + SumCounts(t[5..], m);
    assert SumCounts(t[3..], m) == Count(PopupChoiceLine, m) + SumCounts(t[4..], m);
    assert SumCounts(t[2..], m) == Count(PopupTitleLine, m) + SumCounts(t[3..], m);
    assert SumCounts(t[1..], m) == Count(PopupUrlLine, m) + SumCounts(t[2..], m);
    assert SumCounts(t, m) == Count(t[0], m) + SumCounts(t[1..], m);
  }

  /** The pieces of both templates meet their values at a double quote, which
      the marker does not contain. */
  lemma TemplatesAreQuoted()
    ensures forall k :: 0 <= k < 3 ==> |HoverLines[k]| > 0 && HoverLines[k][|HoverLines[k]| - 1] == '"'
    ensures forall k :: 1 <= k < 4 ==> |HoverLines[k]| > 0 && HoverLines[k][0] == '"'
    ensures forall k :: 0 <= k < 8 ==> |PopupLines[k]| > 0 && PopupLines[k][|PopupLines[k]| - 1] == '"'
    ensures forall k :: 1 <= k < 9 ==> |PopupLines[k]| > 0 && PopupLines[k][0] == '"'
    ensures '"' !in ScenarioMarker
  {
    assert GivenPage[|GivenPage| - 1] == '"';
    assert HoverLines[0][|HoverLines[0]| - 1] == '"';
    assert HoverUrlLine[0] == '"' && HoverTargetLine[0] == '"' && HoverOutcome[0] == '"';
    assert PopupLines[0][|PopupLines[0]| - 1] == '"';
    assert PopupLines[4][|PopupLines[4]| - 1] == '"';
    assert CancelOutcome[0] == '"' && ContinueOutcome[0] == '"';
  }

  /** Stripping a text framed by one newline on each side gives the text back
      when it neither starts nor ends with whitespace. */
  lemma StripFramed(x: string)
    requires |x| > 0 && !IsSpace(x[0]) && !IsSpace(x[|x| - 1])
    ensures Strip("\n" + x + "\n") == x
  {
    var s := "\n" + x + "\n";
    var i := LeadingEnd(s, IsSpace, 0);
    var r := Strip(s);
    assert IsSpace(s[0]) && s[1] == x[0] && s[|s| - 2] == x[|x| - 1] && IsSpace(s[|s| - 1]);
    assert i == 1;
    assert !IsSpace(s[|s| - 2]);
    assert |r| == 0 || !IsSpace(r[|r| - 1]);
    assert r == s[1..1 + |r|];
    assert |r| == |x|;
    assert r == s[1..|s| - 1];
  }

  /** The canned scenario is its filled template, unchanged by the strip. */
  lemma StubIsTemplate(data: Interaction)
    requires data.HoverSeen? ==> |data.revealed| > 0
    ensures data.HoverSeen? ==> Stub(data) == Fill(HoverLines, StubValues(data))
    ensures data.PopupSeen? ==> Stub(data) == Fill(PopupLines, StubValues(data))
  {
    if data.HoverSeen? {
      var f := Fill(HoverLines, StubValues(data));
      FillFrame(HoverLines, StubValues(data));
      assert HoverTitle[0] == 'F' && HoverLines[0][0] == 'F';
      assert HoverOutcome[|HoverOutcome| - 1] == 'L';
      assert f[0] == 'F' && f[|f| - 1] == 'L';
      StripFramed(f);
    } else if data.PopupSeen? {
      var f := Fill(PopupLines, StubValues(data));
      FillFrame(PopupLines, StubValues(data));
      assert PopupTitle[0] == 'F' && PopupLines[0][0] == 'F';
      assert ContinueOutcome[|ContinueOutcome| - 1] == 'n';
      assert f[0] == 'F' && f[|f| - 1] == 'n';
      StripFramed(f);
    }
  }

  /** Every canned scenario opens with the feature line. */
  lemma StubStartsWithFeature(data: Interaction)
    requires data.HoverSeen? ==> |data.revealed| > 0
    requires !data.OtherSeen?
    ensures "Feature:" <= Stub(data)
  {
    StubIsTemplate(data);
    if data.HoverSeen? {
      HoverLinesOpen();
      FillKeepsPrefix("Feature:", HoverLines, StubValues(data));
    } else {
      PopupLinesOpen();
      FillKeepsPrefix("Feature:", PopupLines, StubValues(data));
    }
  }

  /** A filled template starts with whatever its first piece starts with. */
  lemma FillKeepsPrefix(p: string, lits: seq<string>, vals: seq<string>)
    requires |lits| == |vals| + 1 && p <= lits[0]
    ensures p <= Fill(lits, vals)
  {
    FillFrame(lits, vals);
  }

  lemma HoverLinesOpen()
    ensures "Feature:" <= HoverLines[0]
  {
    var head := "Feature: Validate ";
    assert HoverTitle == head + HoverTitle[|head|..];
    PrefixOfConcat("Feature:", head[8..]);
    assert head == "Feature:" + head[8..];
    PrefixOfConcat(head, HoverTitle[|head|..] + ScenarioMarker + HoverScenarioName);
  }

  lemma PopupLinesOpen()
    ensures "Feature:" <= PopupLines[0]
  {
    var head := "Feature: Validate ";
    assert PopupTitle == head + PopupTitle[|head|..];
    PrefixOfConcat("Feature:", head[8..]);
    assert head == "Feature:" + head[8..];
    PrefixOfConcat(head, PopupTitle[|head|..] + ScenarioMarker + CancelScenarioName);
  }

  /** The hover scenario holds one "Scenario:" of its own and the popup
      scenario two; any further ones can only come from the interpolated texts. */
  lemma StubScenarioCount(data: Interaction)
    requires data.HoverSeen? ==> |data.revealed| > 0
    ensures data.HoverSeen? ==>
      Count(Stub(data), ScenarioMarker) == 1 + SumCounts(StubValues(data), ScenarioMarker)
    ensures data.PopupSeen? ==>
      Count(Stub(data), ScenarioMarker) == 2 + SumCounts(StubValues(data), ScenarioMarker)
  {
    StubIsTemplate(data);
    TemplatesAreQuoted();
    if data.HoverSeen? {
      HoverLinesCount();
      CountFill(HoverLines, StubValues(data), ScenarioMarker);
    } else if data.PopupSeen? {
      PopupLinesCount();
      CountFill(PopupLines, StubValues(data), ScenarioMarker);
    }
  }

  /** Without "Scenario:" in any interpolated text, the hover scenario holds
      exactly one and the popup scenario exactly two. */
  lemma StubScenarioCountPlain(data: Interaction)
    requires data.HoverSeen? ==> |data.revealed| > 0
    requires forall k :: 0 <= k < |StubValues(data)| ==> Count(StubValues(data)[k], ScenarioMarker) == 0
    ensures data.HoverSeen? ==> Count(Stub(data), ScenarioMarker) == 1
    ensures data.PopupSeen? ==> Count(Stub(data), ScenarioMarker) == 2
  {
    StubScenarioCount(data);
    SumCountsZero(StubValues(data));
  }

  lemma {:induction false} SumCountsZero(xs: seq<string>)
    requires forall k :: 0 <= k < |xs| ==> Count(xs[k], ScenarioMarker) == 0
    ensures SumCounts(xs, ScenarioMarker) == 0
  {
    if |xs| > 0 {
      assert Count(xs[0], ScenarioMarker) == 0;
      SumCountsZero(xs[1..]);
    }
  }

  /** Hover prompt and hover scenario read only the first revealed element's text. */
  lemma HoverUsesFirstRevealedText(url: string, hover: Candidate, a: seq<Revealed>, b: seq<Revealed>)
    requires |a| > 0 && |b| > 0 && a[0].text == b[0].text
    ensures BuildPrompt(HoverSeen(url, hover, a)) == BuildPrompt(HoverSeen(url, hover, b))
    ensures Stub(HoverSeen(url, hover, a)) == Stub(HoverSeen(url, hover, b))
  {
    assert StubValues(HoverSeen(url, hover, a)) == StubValues(HoverSeen(url, hover, b));
  }

  /** A modal without buttons gets the scenario of a modal whose two buttons
      read "Cancel" and "Continue". */
  lemma PopupDefaultLabels(url: string, click: Candidate, title: string, fullText: string, cancel: Button, cont: Button)
    requires cancel.text == "Cancel" && cont.text == "Continue"
    ensures Stub(PopupSeen(url, click, Modal(title, fullText, [])))
         == Stub(PopupSeen(url, click, Modal(title, fullText, [cancel, cont])))
  {
    assert StubValues(PopupSeen(url, click, Modal(title, fullText, [])))
        == StubValues(PopupSeen(url, click, Modal(title, fullText, [cancel, cont])));
  }

  /** The popup scenario reads only the first two buttons' texts. */
  lemma PopupUsesFirstTwoButtons(url: string, click: Candidate, title: string, fullText: string, a: seq<Button>, b: seq<Button>)
    requires |a| >= 2 && |b| >= 2 && a[0].text == b[0].text && a[1].text == b[1].text
    ensures Stub(PopupSeen(url, click, Modal(title, fullText, a)))
         == Stub(PopupSeen(url, click, Modal(title, fullText, b)))
  {
    assert StubValues(PopupSeen(url, click, Modal(title, fullText, a)))
        == StubValues(PopupSeen(url, click, Modal(title, fullText, b)));
  }
}
