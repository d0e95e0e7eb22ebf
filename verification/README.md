# AI Gherkin generator — a Dafny model of its analysis and writing core

The system takes a URL, opens it in a browser and probes the page for two
kinds of interaction:

- a click that opens a modal dialog;
- a hover that reveals new content.

For the first interaction of each kind it finds, it writes a Gherkin
scenario. The scenario comes from a language model, or from a canned
template when no model is configured. The scenarios go into a `.feature`
file.

This project models the pure logic in that pipeline and proves properties
about it:

- `dom.dfy`: an already-parsed HTML tree, with:
  - `get_text(strip=True)`;
  - `find_all` in pre-order;
  - the CSS selectors the analyser uses, written as predicates.
- `element_analyzer.dfy` (`ElementAnalyzer`): the analyser's three steps:
  - listing the candidate interactive elements of a page;
  - `compare_doms`, which diffs by text first and falls back to a
    `(tag, classes)` diff;
  - `analyze_modal_dialog`: which container counts as the new modal, and its
    title, full text and buttons.
- `dedup.dfy` (`Dedup`): the "first element with each text" scan. The analyser
  uses it twice. It is proved equal to a reference definition that keeps no
  memory.
- `llm_service.dfy` (`LlmService`):
  - whether the service can be built;
  - the prompt;
  - the canned scenarios;
  - the removal of code fences from a model's answer;
  - the choice among these in `generate_gherkin_scenario`.
- `gherkin_generator.dfy` (`GherkinGenerator`): the feature file's name and
  path.
- `main.dfy` (`Orchestrator`): the `/generate-tests` handler.
  - The click pass and the hover pass are each a first-success search over
    abstract per-element probe outcomes.
  - The handler then assembles the feature file and the response.
- `pytext.dfy`, `seqs.dfy`, `wrappers.dfy`: Python string operations (`strip`,
  `split`, `join`, `replace`, `repr`), sequence helpers, and `Option` and
  `Result`.

Everything outside these pure parts is an input: the browser, the clock,
the environment, the file system and the model. `Env` in `main.dfy` holds
the browser's answers, indexed by the position of the element probed. It
also holds whether the API key and the client package are present, the
model's answer per attempt, the formatted timestamp, and what the file
system does. The model is a function from the full prompt to a reply or an
API error.

Python set iteration happens twice:

- over `found_elements`;
- over `list(new_struct)`.

Both are modelled by `Seqs.Enumerate`, which lists a set in an unspecified
order that is fixed for each set. The contracts that depend on it therefore
hold for every order. For the same reason the members built on it are ghost.

The float test `new_words > max(1, len(words) * 0.25)` is written exactly,
in integers, as `n > 1 && 4 * n > |words|`.

In the code, the hover diff uses the full snapshots (`changes['initial']`).
The modal title is "" when neither a heading with text nor a direct child text qualifies. Buttons
are any of `button`, `a`, and `input` of type button or submit, each kept
when its text is non-empty and shorter than 80 characters.

## Model

| member | source | states |
|---|---|---|
| ElementAnalyzer.ElementText | src/element_analyzer.py:62-64 | The normalised element text has no whitespace at either end, and every inner whitespace character is a single space between two non-space characters. |
| PyText.NormalizeIdempotent | src/element_analyzer.py:62-64 | Collapsing whitespace keeps the words, and collapsing twice gives the same text as collapsing once. |
| Dom.GetTextIsStrippedStrings | src/element_analyzer.py:63 | `get_text(strip=True)` is every descendant string, each stripped, concatenated with no separator. |
| ElementAnalyzer.InteractiveSources | src/element_analyzer.py:27-58 | Primary pass: each found element whose text is non-empty and shorter than 200 characters is listed exactly once (no repeats; as many entries as such elements). Fallback: it runs only when the primary pass lists nothing, and then lists exactly the `a` and `button` elements with non-empty text. |
| ElementAnalyzer.FallbackInDocumentOrder | src/element_analyzer.py:49-58 | The fallback lists the qualifying `a` and `button` elements in document order. The one at each pre-order position gets its own entry, the entry numbers strictly increase with the position, and there are no other entries. |
| ElementAnalyzer.FindPotentialInteractiveElements | src/element_analyzer.py:12-60 | One candidate per source element, at the same position: its tag is the element's name, its text the whitespace-collapsed element text, its classes the element's classes, its id the `id` attribute or "". Every text is non-empty; primary-pass texts are shorter than 200 characters and fallback entries are all `a` or `button`. |
| ElementAnalyzer.NearestAncestor | src/element_analyzer.py:96-97 | `find_parent(name)`: None exactly when no ancestor has that name; otherwise an ancestor with that name, with no closer one. |
| ElementAnalyzer.Href | src/element_analyzer.py:93-97 | An `a` gives its own `href`. Any other element gives the `href` of its closest enclosing `a`, or "" when no ancestor is an `a`. A missing attribute reads as "". |
| Dedup.FirstsIsRef | src/element_analyzer.py:85-104 | The text scan with its `seen_texts` memory equals the reference definition: the items at positions holding the first occurrence of a passing text, in list order. |
| Dedup.FirstsProperties | src/element_analyzer.py:85-104 | Each kept item passes the test and comes from the list. No two kept items share a text. Every passing text in the list is kept. |
| ElementAnalyzer.TextRevealsIsRef | src/element_analyzer.py:81-104 | The text path of `compare_doms` is the first-occurrence selection over the final page's `a`/`button`/`div`/`span` elements, in document order. |
| ElementAnalyzer.TextReveals | src/element_analyzer.py:81-104 | Every entry is an `a`, `button`, `div` or `span` whose text is non-empty and is no element text of the initial page. No two entries share a text. |
| ElementAnalyzer.NewTextsSpec | src/element_analyzer.py:85-104 | For any candidates and any initial texts: every entry has a non-empty text that is not an initial text, no two entries share a text, and every such text among the candidates is listed. |
| ElementAnalyzer.TextRevealsSpec | src/element_analyzer.py:75-104 | The same three facts for the text path of `compare_doms`, with the initial texts taken from every element of the initial page. |
| ElementAnalyzer.TextRevealsNonEmpty | src/element_analyzer.py:85-107 | The text path finds something exactly when some candidate of the final page carries a non-empty text the initial page lacks. |
| ElementAnalyzer.ListSignatures | src/element_analyzer.py:110-117 | `list(new_struct)[:10]`: min(size, 10) entries, each with empty text and href, each signature in the set, no signature twice. |
| ElementAnalyzer.StructuralReveals | src/element_analyzer.py:107-117 | Min(n, 10) entries, where n counts the `(tag, classes)` signatures the final page has and the initial page lacks. Each entry has empty text and href and one of those signatures, and no signature appears twice. |
| ElementAnalyzer.CompareDoms | src/element_analyzer.py:66-119 | When the text path finds anything, the result is exactly the text path's list (first new texts in document order); otherwise it is exactly the structural fallback's list. With a new text the list is non-empty with distinct new texts; otherwise it has the structural entries described above. |
| ElementAnalyzer.CompareDomsSame | src/element_analyzer.py:75-117 | Comparing a page with itself reveals nothing. |
| ElementAnalyzer.ModalCandidates | src/element_analyzer.py:150-155 | Every entry is an element of the final page, and every element of the final page that matches some modal selector is an entry. |
| ElementAnalyzer.ModalCandidatesBySelector | src/element_analyzer.py:150-155 | The entries are the selectors' match lists laid end to end, in selector order: each selector's matches, in document order, fill one contiguous block whose start is the number of matches of all earlier selectors, and nothing follows the last block. |
| ElementAnalyzer.ContainerFrom | src/element_analyzer.py:157-177 | For any candidates, blocks and initial texts: None exactly when no candidate looks new and no block is a large new block. Otherwise it returns the first candidate that looks new, or, when none does, the first large new block in document order. |
| ElementAnalyzer.ModalContainer | src/element_analyzer.py:157-177 | The same, for the selector matches and the `div`/`section`/`aside` elements of the final page against the initial page's texts. |
| ElementAnalyzer.ContainerIsNew | src/element_analyzer.py:157-174 | The container's text is longer than 10 characters and is not the text of any element of the initial page. |
| ElementAnalyzer.AnalyzeModalDialog | src/element_analyzer.py:122-217 | None exactly when no container qualifies. Otherwise the full text is longer than 10 characters and new to the initial page, every button text is non-empty and shorter than 80 characters, and no two buttons share a text. |
| ElementAnalyzer.NoNewWords | src/element_analyzer.py:161-163 | Words that all occur in one initial text count zero new words. |
| ElementAnalyzer.ModalContainerSame | src/element_analyzer.py:130-177 | A page compared with itself has no modal container. |
| ElementAnalyzer.AnalyzeModalDialogSame | src/element_analyzer.py:122-177 | `analyze_modal_dialog(S, S)` is None. |
| ElementAnalyzer.HeadingFrom | src/element_analyzer.py:180-185 | None exactly when no level h1..h4 occurs below the container. Otherwise the result is the first element, in document order, of the first level that does occur. |
| ElementAnalyzer.TitlePrefersH1 | src/element_analyzer.py:180-185 | When the first `h1` below the container has non-empty text, it is the title, even when lower-level headings come before it. |
| ElementAnalyzer.ChildTitle | src/element_analyzer.py:187-194 | "" exactly when no direct child's text is 2..199 characters long. Otherwise it is the first such child's text. |
| ElementAnalyzer.ModalTitle | src/element_analyzer.py:180-194 | With no `h1`..`h4` below the container, the title is the first qualifying child text (or ""). When the first heading of the first level present has non-empty text, that text is the title; when its text is empty, the child text is used. |
| ElementAnalyzer.ModalButtons | src/element_analyzer.py:198-211 | Every button text is non-empty and shorter than 80 characters, and no two buttons share a text. |
| ElementAnalyzer.ModalButtonsComplete | src/element_analyzer.py:198-211 | The buttons are the first control of each acceptable text, in document order, and every acceptable control text is listed. |
| LlmService.Connect | src/llm_service.py:13-26 | No key (unset or empty): stubbed. Key without the client package: the constructor fails with its message. Otherwise: Gemini. |
| LlmService.BuildPrompt | src/llm_service.py:31-58 | Hover with no revealed element: "". Any type other than hover or popup: "". Otherwise the prompt starts with its fixed head, and a popup prompt continues with the modal title and the "Popup buttons: " label. |
| LlmService.PopupPromptFields | src/llm_service.py:47-56 | The popup prompt is exactly these parts, in order, each at its offset: its head, the modal title, "\nPopup buttons: ", Python's rendering of the button texts, and "\n". The total length is fixed too. |
| LlmService.HoverPromptFields | src/llm_service.py:39-45 | The hover prompt is its head, the URL, the "Hover element = " label, the hovered element's text, the "Revealed element to click = " label and the first revealed element's text, each at its position, then a final line break. |
| LlmService.ListReprPartAt | src/llm_service.py:50-55 | Python's rendering of a list quotes each element at its own offset, and the offsets increase along the list. |
| LlmService.PopupPromptListsButtons | src/llm_service.py:47-56 | The popup prompt contains the repr of every button text, in modal order. |
| LlmService.FullPrompt | src/llm_service.py:68-73 | The model is sent the system prompt, a blank line, then the prompt unchanged. |
| LlmService.HoverUsesFirstRevealedText | src/llm_service.py:36-94 | The hover prompt and the hover stub depend only on the first revealed element's text. |
| LlmService.PopupDefaultLabels | src/llm_service.py:96-119 | With no buttons, the popup stub uses the labels "Cancel" and "Continue". |
| LlmService.PopupUsesFirstTwoButtons | src/llm_service.py:96-119 | The popup stub depends only on the first two buttons' texts. |
| LlmService.Stub | src/llm_service.py:81-121 | A type other than hover or popup gives "". |
| LlmService.StubIsTemplate | src/llm_service.py:81-119 | The `.strip()` leaves the filled template unchanged, so the stub is exactly the template with its values filled in. |
| LlmService.StubStartsWithFeature | src/llm_service.py:86-119 | Every stub scenario starts with "Feature:". |
| LlmService.StubScenarioCount | src/llm_service.py:86-119 | "Scenario:" occurs in the hover stub once more, and in the popup stub twice more, than in the interpolated texts. |
| LlmService.StubScenarioCountPlain | src/llm_service.py:86-119 | When the interpolated texts hold no "Scenario:", the hover stub holds exactly one and the popup stub exactly two. |
| LlmService.NoFenceAfterRemoval | src/llm_service.py:131 | After every "```" has been removed, no "```" remains. |
| LlmService.Clean | src/llm_service.py:128-131 | The cleaned answer contains no "```". A stripped answer with no "```" comes back unchanged. |
| LlmService.CleanFencedBlock | src/llm_service.py:128-131 | An answer that wraps one block (no backticks, no whitespace at its ends) in a "```gherkin" line and a closing "```" line comes back as exactly that block. |
| LlmService.GenerateScenario | src/llm_service.py:63-137 | An empty prompt gives "" without asking the model. Stubbed: the stub. Gemini: the cleaned answer to the full prompt, or "" on an API error, and never a "```". |
| GherkinGenerator.DomainPart | src/gherkin_generator.py:25 | Same length as the netloc and no ".". Each "." becomes "_" in place, and every other character is kept in place. |
| GherkinGenerator.PathPart | src/gherkin_generator.py:26-29 | Never empty and never holds "/". "home" exactly when the slash-trimmed path is empty; otherwise the trimmed path with each "/" turned into "_". |
| GherkinGenerator.OnlySlashesIsHome | src/gherkin_generator.py:26-29 | A path made only of slashes, the empty path included, becomes "home". |
| GherkinGenerator.InnerPathKept | src/gherkin_generator.py:26 | A path without slashes at its ends keeps every character except its slashes. |
| GherkinGenerator.SanitizeFilename | src/gherkin_generator.py:20-33 | The filename is the domain part, "__", the path part, "__", the timestamp, ".feature", each at its position. It always ends in ".feature". It holds no "/" when neither the netloc nor the timestamp does. |
| GherkinGenerator.PathJoin | src/gherkin_generator.py:42 | POSIX `os.path.join`: an absolute second part replaces the first; otherwise the result starts with the first part and ends with the second. |
| GherkinGenerator.SaveFeatureFile | src/gherkin_generator.py:35-51 | Succeeds exactly when creating the directory and writing the file both succeed, and returns `generated_features/<filename>`. A write error comes back wrapped in "Failed to save feature file: ". |
| Orchestrator.ClickTargets | main.py:44-47 | The targets are exactly the first min(n, 20) links and buttons of the candidates, in order, where n is how many there are. |
| Orchestrator.ClickPassSeesFirstTwenty | main.py:44-47 | Two candidate lists whose first 20 links and buttons agree give the same click-pass result, whatever else they hold. |
| Orchestrator.ClickPassIgnoresTail | main.py:44-47 | Candidates appended after the twentieth link or button never change the click-pass result. |
| Orchestrator.Write | main.py:78-80 | A scenario is kept exactly when the service can be built and writes a non-empty text, and then it is that text. |
| Orchestrator.ClickAttempt | main.py:50-90 | No scenario when the reload fails, the probe fails, the click was skipped or navigated, no modal was found, or the modal has no buttons. Otherwise the result is exactly what writing the popup scenario for that click's modal gives. |
| Orchestrator.ClickAttemptSpec | main.py:50-90 | A click yields a scenario only in this case: the reload succeeded; the probe succeeded and neither skipped nor navigated; a modal with buttons appeared; the service could be built. The scenario is then the non-empty text written for that modal. |
| Orchestrator.ClickPass | main.py:47-90 | No scenario exactly when no probed click yields one. Otherwise the result is the first click's scenario, from one of the first 20 targets. |
| Orchestrator.ClickPassNonEmpty | main.py:78-84 | A popup scenario that is kept is non-empty. |
| Orchestrator.HoverTargets | main.py:98-110 | The first min(n, 30) candidates of the page read again, in order, where n is how many it has. There are none when that read failed. |
| Orchestrator.RevealedIsOneComparison | main.py:114-119 | The second `compare_doms` call returns what the first did. |
| Orchestrator.HoverAttempt | main.py:113-143 | No scenario when the probe fails or the comparison finds nothing. Otherwise the result is exactly what writing the hover scenario from the first comparison's result gives. |
| Orchestrator.HoverAttemptSpec | main.py:113-143 | A hover yields a scenario only when the probe succeeded, the comparison found something, and the service could be built. The scenario is then the non-empty text written from that comparison. |
| Orchestrator.HoverPass | main.py:108-143 | No scenario when the page could not be read again, and none exactly when no probed hover yields one. Otherwise the first hover's scenario, from one of the first 30 targets. |
| Orchestrator.HoverPassNonEmpty | main.py:131-137 | A hover scenario that is kept is non-empty. |
| Orchestrator.FeatureText | main.py:176-178 | The feature text starts with "Feature: Automated tests for " + netloc and a blank line. |
| Orchestrator.FeatureTextHoldsScenarios | main.py:176-178 | Each scenario sits in the feature text after the title, in order. Exactly `"\n\n"` separates neighbours, and the text ends with the last scenario. |
| Orchestrator.Respond | main.py:160-196 | No scenario: the "could not generate" message, and nothing saved. Otherwise the popup scenario, then the hover scenario (1 or 2 in total), joined into the feature text and saved. A failed save is a server error. |
| Orchestrator.GenerateTests | main.py:22-196 | A failure to start or load the page is a server error. Otherwise the response is assembled from the two passes. |
| Orchestrator.ScenariosArePopupThenHover | main.py:78-178 | A generated response holds one or two non-empty scenarios: the popup one first, the hover one last. |
| Orchestrator.RespondKeepsTexts | main.py:163-191 | For any non-empty pass results, a generated response holds them in pass order: popup first, hover last. |
| Orchestrator.SavedOnlyWithScenarios | main.py:163-192 | The file is written under the output directory, with the sanitised name, only when a scenario exists. The response is "could not generate" exactly when both passes found nothing. |
| Orchestrator.MissingPackageGeneratesNothing | main.py:78-90 | With an API key set but the client package missing, every scenario request fails, so nothing is generated or saved. |

## Left out

- Browser session: the Playwright session, navigation, locators, hovering, clicking and the settle waits are left out. Each appears only as the outcome it reports: the two snapshots and the `navigated` and `skipped` flags, or a failure. `browser_manager.py` is not part of this model.
- HTML parsing: BeautifulSoup/lxml parsing is left out; pages are given as trees. The CSS engine is replaced by one predicate per selector form that occurs. Selector errors, which the source catches and treats as "no matches", cannot arise in the model.
- Comments and other special strings: bs4 string subclasses are not modelled. These include comments, and from bs4 4.10 on, the contents of `<script>`, `<style>`, `<template>`, `<rt>` and `<rp>`. An enclosing element's `get_text()` skips them, but a model `Text` leaf is always counted. Text leaves are plain strings, so a model tree stands for a page that has no such strings.
- ElementAnalyzer.FindPotentialInteractiveElements: the order of the primary pass is Python set order. The contract holds for every order and does not fix one.
- ElementAnalyzer.StructuralReveals: which ten of the new signatures are listed depends on set order. The contract says only that they are new and distinct.
- ElementAnalyzer.CompareDoms: the `try`/`except` around `get_text` in the source cannot fail on a tree, so it is not modelled.
- PyText.EscapeChar: Python's `repr` escapes non-printable characters beyond Latin-1 (for example U+2028) as `\u` sequences. This model writes them out as they are.
- URL parsing: `urllib.parse.urlparse` is left out. The netloc and path are inputs (`Url`).
- Clock: `datetime.now()` is left out. The formatted timestamp is an input.
- Model configuration: the `.env` loading and environment look-up of the API key, `genai.configure` and the model name are left out. The key's presence and the package's availability are inputs (`Setup`).
- Model call: `generate_content` is an oracle from the full prompt to a reply or an API error.
- Console output: `print` logging and traceback printing have no effect on results and are left out.
- Closing the browser: the close in `finally` swallows its own errors and has no effect on the response.
- FastAPI: routing, request parsing and the `/` endpoint are left out. A `500` is the `ServerError` response, whose detail is the error text.
- Configuration constants: the detection limits in `config.py` are not used by the handler, which hard-codes 20 and 30. Only `OUTPUT_DIR` is modelled, as `GherkinGenerator.OutputDir`.
- Dead default: the default `"revealed element"` at `llm_service.py:84` is never used, because every revealed entry carries a text. The model reads the text directly.
- LlmService.Stub: the hover template is only reached with at least one revealed element, since an empty prompt returns earlier. Its precondition states this.
