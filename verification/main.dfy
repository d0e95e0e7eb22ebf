/** `Orchestrator`: the `/generate-tests` handler, as a fold over the outcomes
    of probing one page element after another. The browser, the clock and the
    language model are oracles fixed in advance. */
module Orchestrator {
  import opened Wrappers
  import opened Seqs
  import opened PyText
  import opened Dom
  import opened ElementAnalyzer
  import opened LlmService
  import opened GherkinGenerator

  /** What the browser reports for one click or hover: the page before and
      after, and the click's `navigated` and `skipped` flags; or an exception. */
  datatype Probe =
    | Changes(initial: Document, final: Document, navigated: bool, skipped: bool)
    | ProbeFailed

  /** Everything outside the handler. Index `i` of a pass stands for its
      `i`-th probed element. */
  datatype Env = Env(
    start: Result<Document, string>,      // start, first navigation and page read
    reload: nat -> bool,                  // navigation before the i-th click succeeded
    click: nat -> Probe,
    reset: Option<Document>,              // page read again before the hover pass
    hover: nat -> Probe,
    setup: Setup,                         // what `LLMService()` finds
    clickAnswer: nat -> string -> Reply,  // the model, when asked after the i-th click
    hoverAnswer: nat -> string -> Reply,
    timestamp: string,
    files: FileSystem)

  /** The request: the URL and the netloc and path `urlparse` finds in it. */
  datatype Url = Url(text: string, netloc: string, path: string)

  datatype Response =
    | Generated(featureFile: string, content: string, scenarios: seq<string>)
    | NotGenerated(message: string, details: string)
    | ServerError(detail: string)

  const ClickLimit := 20
  const HoverLimit := 30

  const NoScenarioMessage := "Could not generate any test scenarios for the given URL."
  const NoScenarioDetails := "No interactive elements (hover menus or popups) were detected on the page."

  // ===========================================================================
  // click pass

  predicate IsClickable(c: Candidate) {
    c.tag == "a" || c.tag == "button"
  }

  /** The elements the click pass probes: the first 20 links and buttons. */
  function ClickTargets(elements: seq<Candidate>): (r: seq<Candidate>)
    ensures |r| == if |Filter(elements, IsClickable)| < ClickLimit then |Filter(elements, IsClickable)| else ClickLimit
    ensures r == Filter(elements, IsClickable)[..|r|]
    ensures |r| <= ClickLimit
    ensures forall k :: 0 <= k < |r| ==> IsClickable(r[k]) && r[k] in elements
    ensures |Filter(elements, IsClickable)| <= ClickLimit ==>
      forall c :: c in elements && IsClickable(c) ==> c in r
    ensures |Filter(elements, IsClickable)| > ClickLimit ==> |r| == ClickLimit
  {
    var clickable := Filter(elements, IsClickable);
    var r := Take(clickable, ClickLimit);
    assert forall k :: 0 <= k < |r| ==> r[k] == clickable[k];
    r
  }

  /** Writes one scenario; `None` when the service cannot be built or the
      writer returns "". */
  function Write(env: Env, data: Interaction, answer: string -> Reply): (r: Option<string>)
    ensures r.Some? <==> Connect(env.setup).Success? && GenerateScenario(Connect(env.setup).value, data, answer) != ""
    ensures r.Some? ==> r.value == GenerateScenario(Connect(env.setup).value, data, answer)
  {
    match Connect(env.setup)
    case Failure(_) => None
    case Success(writer) =>
      var scenario := GenerateScenario(writer, data, answer);
      if scenario == "" then None else Some(scenario)
  }

  /** The popup scenario the `i`-th click yields, if any. */
  function ClickAttempt(env: Env, url: Url, targets: seq<Candidate>, i: nat): (r: Option<string>)
    requires i < |targets|
    ensures !env.reload(i) || env.click(i).ProbeFailed? ==> r.None?
    ensures env.click(i).Changes? && (env.click(i).skipped || env.click(i).navigated) ==> r.None?
    ensures env.click(i).Changes? && AnalyzeModalDialog(env.click(i).initial, env.click(i).final).None? ==> r.None?
    ensures var modal := if env.click(i).Changes? then AnalyzeModalDialog(env.click(i).initial, env.click(i).final) else None;
      modal.Some? && modal.value.buttons == [] ==> r.None?
    ensures r.Some? ==> r == Write(env, PopupSeen(url.text, targets[i],
                                     AnalyzeModalDialog(env.click(i).initial, env.click(i).final).value),
                                   env.clickAnswer(i))
    ensures var modal := if env.click(i).Changes? then AnalyzeModalDialog(env.click(i).initial, env.click(i).final) else None;
      env.reload(i) && env.click(i).Changes? && !env.click(i).skipped && !env.click(i).navigated
      && modal.Some? && modal.value.buttons != [] ==>
        r == Write(env, PopupSeen(url.text, targets[i], modal.value), env.clickAnswer(i))
  {
    if !env.reload(i) then None
    else match env.click(i)
      case ProbeFailed => None
      case Changes(initial, final, navigated, skipped) =>
        if skipped || navigated then None
        else match AnalyzeModalDialog(initial, final)
          case None => None
          case Some(modal) =>
            if modal.buttons == [] then None
            else Write(env, PopupSeen(url.text, targets[i], modal), env.clickAnswer(i))
  }

  /** The click attempts as a function of the index; past the targets there
      is nothing to click. */
  function ClickAt(env: Env, url: Url, targets: seq<Candidate>): (f: nat -> Option<string>)
    ensures forall i :: 0 <= i < |targets| ==> f(i) == ClickAttempt(env, url, targets, i)
  {
    (i: nat) => if i < |targets| then ClickAttempt(env, url, targets, i) else None
  }

  /** The click pass: the first scenario any probed link or button yields. */
  function ClickPass(env: Env, url: Url, elements: seq<Candidate>): (r: Option<string>)
    ensures var f := ClickAt(env, url, ClickTargets(elements));
      r.None? <==> forall i :: 0 <= i < |ClickTargets(elements)| ==> f(i).None?
    ensures var f := ClickAt(env, url, ClickTargets(elements));
      r.Some? ==> exists i :: 0 <= i < |ClickTargets(elements)| && i < ClickLimit
                     && f(i) == r && forall j :: 0 <= j < i ==> f(j).None?
  {
    FirstSome(ClickAt(env, url, ClickTargets(elements)), 0, |ClickTargets(elements)|)
  }

  /** A click that failed, was skipped, navigated away, or showed no modal with
      buttons never yields a scenario; one that succeeds yields a non-empty text
      written for that click's modal. */
  lemma ClickAttemptSpec(env: Env, url: Url, targets: seq<Candidate>, i: nat)
    requires i < |targets|
    ensures ClickAttempt(env, url, targets, i).Some? ==>
      && env.reload(i)
      && env.click(i).Changes?
      && !env.click(i).skipped && !env.click(i).navigated
      && AnalyzeModalDialog(env.click(i).initial, env.click(i).final).Some?
      && AnalyzeModalDialog(env.click(i).initial, env.click(i).final).value.buttons != []
      && ClickAttempt(env, url, targets, i).value != ""
      && Connect(env.setup).Success?
      && ClickAttempt(env, url, targets, i).value == GenerateScenario(Connect(env.setup).value,
           PopupSeen(url.text, targets[i], AnalyzeModalDialog(env.click(i).initial, env.click(i).final).value),
           env.clickAnswer(i))
  {
  }

  // ===========================================================================
  // hover pass

  /** The elements the hover pass probes: the first 30 candidates of the page
      read again, or none when that read failed. */
  ghost function HoverTargets(env: Env): (r: seq<Candidate>)
    ensures |r| <= HoverLimit
    ensures env.reset.None? ==> r == []
    ensures env.reset.Some? ==> |r| <= |FindPotentialInteractiveElements(env.reset.value)|
    ensures env.reset.Some? && |r| <= |FindPotentialInteractiveElements(env.reset.value)| ==>
      r == FindPotentialInteractiveElements(env.reset.value)[..|r|]
    ensures env.reset.Some? ==>
      |r| == if |FindPotentialInteractiveElements(env.reset.value)| < HoverLimit
             then |FindPotentialInteractiveElements(env.reset.value)| else HoverLimit
  {
    match env.reset
    case None => []
    case Some(page) => Take(FindPotentialInteractiveElements(page), HoverLimit)
  }

  /** The revealed elements of one hover. The handler compares the snapshots a
      second time when the first comparison is empty, exactly as here. */
  ghost function Revealed(initial: Document, final: Document): seq<Revealed> {
    var first := CompareDoms(initial, final);
    if first == [] then CompareDoms(initial, final) else first
  }

  /** Comparing again cannot find anything new: the comparison is a function
      of the two snapshots. */
  lemma RevealedIsOneComparison(initial: Document, final: Document)
    ensures Revealed(initial, final) == CompareDoms(initial, final)
  {
  }

  /** The hover scenario the `i`-th hover yields, if any. */
  ghost function HoverAttempt(env: Env, url: Url, targets: seq<Candidate>, i: nat): (r: Option<string>)
    requires i < |targets|
    ensures env.hover(i).ProbeFailed? ==> r.None?
    ensures env.hover(i).Changes? && CompareDoms(env.hover(i).initial, env.hover(i).final) == [] ==> r.None?
    ensures r.Some? ==> r == Write(env, HoverSeen(url.text, targets[i],
                                     CompareDoms(env.hover(i).initial, env.hover(i).final)),
                                   env.hoverAnswer(i))
    ensures env.hover(i).Changes? && CompareDoms(env.hover(i).initial, env.hover(i).final) != [] ==>
      r == Write(env, HoverSeen(url.text, targets[i], CompareDoms(env.hover(i).initial, env.hover(i).final)),
                 env.hoverAnswer(i))
  {
    match env.hover(i)
    case ProbeFailed => None
    case Changes(initial, final, _, _) =>
      var revealed := Revealed(initial, final);
      if revealed == [] then None
      else Write(env, HoverSeen(url.text, targets[i], revealed), env.hoverAnswer(i))
  }

  /** The hover attempts as a function of the index. */
  ghost function HoverAt(env: Env, url: Url, targets: seq<Candidate>): (f: nat -> Option<string>)
    ensures forall i :: 0 <= i < |targets| ==> f(i) == HoverAttempt(env, url, targets, i)
  {
    (i: nat) => if i < |targets| then HoverAttempt(env, url, targets, i) else None
  }

  /** The hover pass: the first scenario any probed element yields. */
  ghost function HoverPass(env: Env, url: Url): (r: Option<string>)
    ensures env.reset.None? ==> r.None?
    ensures var f := HoverAt(env, url, HoverTargets(env));
      r.None? <==> forall i :: 0 <= i < |HoverTargets(env)| ==> f(i).None?
    ensures var f := HoverAt(env, url, HoverTargets(env));
      r.Some? ==> exists i :: 0 <= i < |HoverTargets(env)| && i < HoverLimit
                     && f(i) == r && forall j :: 0 <= j < i ==> f(j).None?
  {
    FirstSome(HoverAt(env, url, HoverTargets(env)), 0, |HoverTargets(env)|)
  }

  /** A hover yields a scenario only when it revealed something, and then the
      scenario is written from what the first comparison found. */
  lemma HoverAttemptSpec(env: Env, url: Url, targets: seq<Candidate>, i: nat)
    requires i < |targets|
    ensures HoverAttempt(env, url, targets, i).Some? ==>
      && env.hover(i).Changes?
      && CompareDoms(env.hover(i).initial, env.hover(i).final) != []
      && HoverAttempt(env, url, targets, i).value != ""
      && Connect(env.setup).Success?
      && HoverAttempt(env, url, targets, i).value == GenerateScenario(Connect(env.setup).value,
           HoverSeen(url.text, targets[i], CompareDoms(env.hover(i).initial, env.hover(i).final)),
           env.hoverAnswer(i))
  {
  }

  // ===========================================================================
  // result

  const FeatureTitlePrefix := "Feature: Automated tests for "

  /** The feature file's text: its title line, a blank line, and the scenarios
      separated by blank lines. */
  function FeatureText(netloc: string, scenarios: seq<string>): (r: string)
    ensures FeatureTitlePrefix + netloc + "\n\n" <= r
  {
    FeatureTitlePrefix + netloc + "\n\n" + Join(scenarios, "\n\n")
  }

  /** Each scenario sits in the feature text after the title, in order, with a
      blank line between neighbours. */
  lemma FeatureTextHoldsScenarios(netloc: string, scenarios: seq<string>, k: nat)
    requires k < |scenarios|
    ensures var at := |FeatureTitlePrefix + netloc + "\n\n"| + JoinOffset(scenarios, "\n\n", k);
      && at + |scenarios[k]| <= |FeatureText(netloc, scenarios)|
      && FeatureText(netloc, scenarios)[at..at + |scenarios[k]|] == scenarios[k]
    ensures k + 1 < |scenarios| ==>
      JoinOffset(scenarios, "\n\n", k) + |scenarios[k]| + 2 == JoinOffset(scenarios, "\n\n", k + 1)
    ensures var at := |FeatureTitlePrefix + netloc + "\n\n"| + JoinOffset(scenarios, "\n\n", k);
      k + 1 < |scenarios| ==>
        && at + |scenarios[k]| + 2 <= |FeatureText(netloc, scenarios)|
        && FeatureText(netloc, scenarios)[at + |scenarios[k]|..at + |scenarios[k]| + 2] == "\n\n"
    ensures var at := |FeatureTitlePrefix + netloc + "\n\n"| + JoinOffset(scenarios, "\n\n", k);
      k + 1 == |scenarios| ==> at + |scenarios[k]| == |FeatureText(netloc, scenarios)|
  {
    JoinPartAt(scenarios, "\n\n", k);
    var head := FeatureTitlePrefix + netloc + "\n\n";
    var body := Join(scenarios, "\n\n");
    var off := JoinOffset(scenarios, "\n\n", k);
    assert FeatureText(netloc, scenarios) == head + body;
    assert (head + body)[|head| + off..|head| + off + |scenarios[k]|] == body[off..off + |scenarios[k]|];
    if k + 1 < |scenarios| {
      JoinSepAt(scenarios, "\n\n", k);
      var gap := off + |scenarios[k]|;
      assert (head + body)[|head| + gap..|head| + gap + 2] == body[gap..gap + 2];
    } else {
      JoinLength(scenarios, "\n\n");
    }
  }

  /** The end of `generate_tests` once both passes are over: no scenario
      gives the "could not generate" answer and writes nothing; otherwise the
      popup scenario, then the hover scenario, go into the saved feature file. */
  function Respond(files: FileSystem, timestamp: string, url: Url, popup: Option<string>, hover: Option<string>): (r: Response)
    ensures r.NotGenerated? <==> popup.None? && hover.None?
    ensures r.NotGenerated? ==> r == NotGenerated(NoScenarioMessage, NoScenarioDetails)
    ensures r.Generated? ==>
      && r.scenarios == popup.ToSeq() + hover.ToSeq()
      && 1 <= |r.scenarios| <= 2
      && r.content == FeatureText(url.netloc, r.scenarios)
      && (popup.Some? ==> r.scenarios[0] == popup.value)
      && (hover.Some? ==> r.scenarios[|r.scenarios| - 1] == hover.value)
      && SaveFeatureFile(files, url.netloc, url.path, timestamp) == Success(r.featureFile)
    ensures r.ServerError? <==> (popup.Some? || hover.Some?) && SaveFeatureFile(files, url.netloc, url.path, timestamp).Failure?
  {
    var scenarios := popup.ToSeq() + hover.ToSeq();
    if scenarios == [] then NotGenerated(NoScenarioMessage, NoScenarioDetails)
    else
      var content := FeatureText(url.netloc, scenarios);
      match SaveFeatureFile(files, url.netloc, url.path, timestamp)
      case Failure(e) => ServerError("Failed to save feature file: " + e)
      case Success(path) => Generated(path, content, scenarios)
  }

  /** `generate_tests`: a failure to start the browser or load the page is a
      server error; otherwise the click pass runs on the page's candidates and
      the hover pass on those of the page read again. */
  ghost function GenerateTests(env: Env, url: Url): (r: Response)
    ensures env.start.Failure? ==> r == ServerError(env.start.error)
    ensures env.start.Success? ==>
      r == Respond(env.files, env.timestamp, url,
                   ClickPass(env, url, FindPotentialInteractiveElements(env.start.value)), HoverPass(env, url))
  {
    match env.start
    case Failure(e) => ServerError(e)
    case Success(page) =>
      Respond(env.files, env.timestamp, url, ClickPass(env, url, FindPotentialInteractiveElements(page)), HoverPass(env, url))
  }

  /** A scenario the click pass yields is non-empty. */
  lemma ClickPassNonEmpty(env: Env, url: Url, elements: seq<Candidate>)
    ensures ClickPass(env, url, elements).Some? ==> ClickPass(env, url, elements).value != ""
  {
    var targets := ClickTargets(elements);
    var r := ClickPass(env, url, elements);
    if r.Some? {
      var i :| 0 <= i < |targets| && ClickAt(env, url, targets)(i) == r;
      ClickAttemptSpec(env, url, targets, i);
    }
  }

  /** A scenario the hover pass yields is non-empty. */
  lemma HoverPassNonEmpty(env: Env, url: Url)
    ensures HoverPass(env, url).Some? ==> HoverPass(env, url).value != ""
  {
    var targets := HoverTargets(env);
    var r := HoverPass(env, url);
    if r.Some? {
      var i :| 0 <= i < |targets| && HoverAt(env, url, targets)(i) == r;
      HoverAttemptSpec(env, url, targets, i);
    }
  }

  /** `r` holds one or two non-empty scenarios: the popup one, when there is
      one, first, and the hover one, when there is one, last. */
  predicate PopupThenHover(r: Response, popup: Option<string>, hover: Option<string>)
    requires r.Generated?
  {
    && 1 <= |r.scenarios| <= 2
    && (forall k :: 0 <= k < |r.scenarios| ==> r.scenarios[k] != "")
    && (popup.Some? ==> r.scenarios[0] == popup.value)
    && (hover.Some? ==> r.scenarios[|r.scenarios| - 1] == hover.value)
  }

  /** At most one popup and one hover scenario are produced, the popup one
      first; each is non-empty. */
  lemma ScenariosArePopupThenHover(env: Env, url: Url)
    ensures GenerateTests(env, url).Generated? ==>
      PopupThenHover(GenerateTests(env, url),
                     ClickPass(env, url, FindPotentialInteractiveElements(env.start.value)),
                     HoverPass(env, url))
  {
    if env.start.Failure? {
      return;
    }
    var popup := ClickPass(env, url, FindPotentialInteractiveElements(env.start.value));
    var hover := HoverPass(env, url);
    ClickPassNonEmpty(env, url, FindPotentialInteractiveElements(env.start.value));
    HoverPassNonEmpty(env, url);
    RespondKeepsTexts(env.files, env.timestamp, url, popup, hover);
    assert GenerateTests(env, url) == Respond(env.files, env.timestamp, url, popup, hover);
  }

  /** Non-empty pass results give non-empty scenarios, in pass order. */
  lemma RespondKeepsTexts(files: FileSystem, timestamp: string, url: Url, popup: Option<string>, hover: Option<string>)
    requires popup.Some? ==> popup.value != ""
    requires hover.Some? ==> hover.value != ""
    ensures var r := Respond(files, timestamp, url, popup, hover);
      r.Generated? ==> PopupThenHover(r, popup, hover)
  {
  }

  /** A run that produces a scenario writes the feature file under the output
      directory; a run that produces none writes nothing. */
  lemma SavedOnlyWithScenarios(env: Env, url: Url)
    requires env.start.Success?
    requires '/' !in url.netloc
    ensures var r := GenerateTests(env, url);
      r.Generated? ==> r.featureFile == OutputDir + "/" + SanitizeFilename(url.netloc, url.path, env.timestamp)
    ensures var r := GenerateTests(env, url);
      r.NotGenerated? <==> ClickPass(env, url, FindPotentialInteractiveElements(env.start.value)).None?
                           && HoverPass(env, url).None?
  {
  }

  /** Without the model client package, a configured key leaves the click
      pass without a scenario. */
  lemma ClickPassWithoutPackage(env: Env, url: Url, elements: seq<Candidate>)
    requires env.setup.apiKey.GetOr("") != "" && !env.setup.packageAvailable
    ensures ClickPass(env, url, elements).None?
  {
    var targets := ClickTargets(elements);
    forall i | 0 <= i < |targets| ensures ClickAt(env, url, targets)(i).None? {
      if ClickAttempt(env, url, targets, i).Some? {
        ClickAttemptSpec(env, url, targets, i);
      }
    }
  }

  /** The same for the hover pass. */
  lemma HoverPassWithoutPackage(env: Env, url: Url)
    requires env.setup.apiKey.GetOr("") != "" && !env.setup.packageAvailable
    ensures HoverPass(env, url).None?
  {
    var targets := HoverTargets(env);
    forall i | 0 <= i < |targets| ensures HoverAt(env, url, targets)(i).None? {
      if HoverAttempt(env, url, targets, i).Some? {
        HoverAttemptSpec(env, url, targets, i);
      }
    }
  }

  /** Without the model client package, a configured key makes every write
      fail, so the run ends without scenarios and saves nothing. */
  lemma MissingPackageGeneratesNothing(env: Env, url: Url)
    requires env.start.Success?
    requires env.setup.apiKey.GetOr("") != "" && !env.setup.packageAvailable
    ensures GenerateTests(env, url) == NotGenerated(NoScenarioMessage, NoScenarioDetails)
  {
    ClickPassWithoutPackage(env, url, FindPotentialInteractiveElements(env.start.value));
    HoverPassWithoutPackage(env, url);
  }

  /** The click pass depends only on the first 20 links and buttons: two
      element lists whose first 20 links and buttons agree, whatever else
      they hold, give the same result. */
  lemma ClickPassSeesFirstTwenty(env: Env, url: Url, a: seq<Candidate>, b: seq<Candidate>)
    requires Take(Filter(a, IsClickable), ClickLimit) == Take(Filter(b, IsClickable), ClickLimit)
    ensures ClickPass(env, url, a) == ClickPass(env, url, b)
  {
    assert ClickTargets(a) == ClickTargets(b);
  }

  /** Elements after the twentieth link or button never change the click
      pass. */
  lemma {:induction false} ClickPassIgnoresTail(env: Env, url: Url, a: seq<Candidate>, rest: seq<Candidate>)
    requires |Filter(a, IsClickable)| >= ClickLimit
    ensures ClickPass(env, url, a + rest) == ClickPass(env, url, a)
  {
    FilterAppend(a, rest, IsClickable);
    var fa := Filter(a, IsClickable);
    assert Take(fa + Filter(rest, IsClickable), ClickLimit) == fa[..ClickLimit];
    ClickPassSeesFirstTwenty(env, url, a + rest, a);
  }
}
