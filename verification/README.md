# FlowPitch slide deck: rendering, navigation and PDF export in Dafny

The deck is a single browser script (`app.js`). It loads `content.json`, renders one `<section>` per slide into
the deck container, and marks slides `is-active` as they scroll into view. Five keys scroll the container by one
screen. An "Export PDF" button rasterises every slide into a 1920×1080 page and saves `FlowPitch.pdf`.

This project models that script as pure functions over immutable values:

- `JsValues`: the JavaScript value rules the script relies on. An absent field or `""` is falsy, and an absent
  field spliced into a template literal prints as `undefined`.
- `Slides`: the slide record and the markup fragments of one slide. `BuildHtml` builds them in the script's own
  sequential way, so the title block overwrites a plain headline. `HeadingPart`, `ListPart` and `SplitPart` give a
  reference definition that decides everything by the slide's shape.
- `Markup`: the exact HTML text of every fragment. Text is spliced in without escaping, as the script does.
- `Deck`: `renderDeck` and the load `try`/`catch`. A slide whose template throws (a `beforeAfter` slide without
  `left`/`right`, or a card without `bullets`) replaces the whole deck with the fixed error message.
- `Activation`: the intersection-observer callback. It only ever adds the active flag.
- `Keyboard`: the `keydown` handler.
- `Pdf`: the PDF document, seen as its sequence of `addPage`/`addImage` calls and the pages they produce.
- `Export`: the export click as a state machine over the page. It covers the button, the `exportingPdf` class,
  the staging element, the script tags, the loaded libraries, alerts and saved files. It includes `loadScript`,
  the per-slide loop, and the `try`/`catch`/`finally`.
- `Page`: the page over its life: a deck loaded, scrolled through, then exported.

Slide field `type` is named `kind` (a Dafny keyword clash), and the button's `textContent` is `buttonText`.

Two behaviours of the code are worth stating:

- An empty deck saves a one-page blank document: the PDF constructor already holds one page, and the loop adds
  nothing (`EmptyDeckSavesBlankPage`).
- A library script that failed to load leaves its tag in the head. Every later `loadScript` for it resolves at
  once, so the library is never fetched again (`DeadTagStaysDead`). After the PDF library failed, every later
  export fails (`FailedPdfLoadIsNotRetried`). After the rasteriser failed, every later export of a non-empty deck
  fails (`FailedCanvasLoadIsNotRetried`); an empty deck still exports, since no slide calls `html2canvas`.

## Model

| member | source | states |
|---|---|---|
| `Slides.BuildHtml` | app.js:31-55 | The sequentially built markup equals heading part, then list part, then split part. It fails only when the split part fails, with the same error. A title slide with a subheadline starts with `<h1>`(headline, `undefined` if absent) then `<p>`(subheadline), and no `<h2>` survives. A `<ul>` appears exactly when `bullets` is present and non-empty, and carries those bullets. Non-`beforeAfter` slides never fail. |
| `Slides.HeadingPart` | app.js:32-37 | `<h1>` appears iff the slide is a title with a truthy subheadline. `<h2>`(headline) appears iff the headline is truthy and the title block is absent. `<p>`(subheadline) appears iff the subheadline is truthy, always after any heading. The title block is exactly two fragments; otherwise there is one fragment per truthy headline and one per truthy subheadline. |
| `Slides.ListPart` | app.js:39-41 | The list is non-empty iff `bullets` is present with length > 0, and then it is the single `<ul>` of exactly those bullets. |
| `Slides.SplitPart` | app.js:43-55 | Only `beforeAfter` slides get a grid. The grid succeeds iff both cards are present with bullets. It is left card then right card, each with its title (interpolated) and bullets in order. A failure names the left card when the left card is incomplete, else the right. |
| `Slides.CardBlockOf` | app.js:46-53 | A card renders iff it is present and has `bullets`. The items are its bullets and the title is its interpolated `title`. An absent card and absent bullets give the two distinct errors. |
| `Markup.ListItemsAppend` | app.js:40 | The `<li>` join of two lists back to back is the join of each, concatenated: list order is preserved. |
| `Markup.ListItemVerbatim` | app.js:40 | Bullet `i` appears verbatim inside its own `<li>…</li>`, between the markup of the bullets before it and after it. |
| `Markup.InnerHtmlAppend` | app.js:31-57 | The markup of a fragment sequence is the markup of its parts in order: heading, then list, then grid. |
| `Markup.InnerHtmlOfPair` | app.js:31-57 | Two fragments render one after the other, with nothing between them. |
| `Markup.TitleSlideHtml` | app.js:34 | The title block with headline `Hi` and subheadline `World` is exactly `<h1 data-animate="1">Hi</h1>` followed by `<p data-animate="2">World</p>`. |
| `Markup.InnerHtmlEmpty` | app.js:31-57 | No fragment's template is empty, so a slide's markup is the empty string exactly when it has no fragment. |
| `Markup.HeadingTextVerbatim` | app.js:32-36 | The `<h1>`, `<h2>` and `<p>` templates hold their text verbatim, unescaped, between a fixed opening tag (21, 21 and 20 characters) and its closing tag: the text reads back from a fixed offset. |
| `Markup.ListTextVerbatim` | app.js:40 | The `<ul>` template holds the `<li>` join of the bullets verbatim after its opening tag; with no bullets it is an empty `<ul>`. |
| `Markup.SplitLeftTitleVerbatim` | app.js:44-47 | The split grid holds the left card's title verbatim, at a fixed offset after the grid's leading line break, indentation and the two `<div>` openings. |
| `Deck.ForEachOrThrow` | app.js:27-59 | A throwing `forEach` succeeds iff the callback succeeds on every element, giving one result per element in order. Otherwise its error is that of the first failing element, and all earlier elements succeeded. |
| `Deck.RenderSlide` | app.js:28-57 | A section exists iff the slide's markup builds. It has class `slide <type>-slide`, the built markup, and is not active. |
| `Deck.SlideClassNamesKind` | app.js:29 | The class is `slide `, then the slide's type verbatim (`undefined` when absent), then `-slide`: the type reads back from the class. |
| `Deck.RenderDeck` | app.js:26-60 | Rendering succeeds iff every slide's markup builds. It then gives exactly one inactive section per slide, in input order, with the slide's class and markup. Otherwise it fails with the first failing slide's error. |
| `Deck.Load` | app.js:14-23 | The observer and key handler are installed iff the container holds sections. That happens iff the fetch succeeded and every slide renders. There is then one section per slide with its class and markup; any other outcome shows only the error message. |
| `Deck.LoadedSectionsFollowSlides` | app.js:18 | After a successful load, section `i` is slide `xs[i]`'s class and markup. |
| `Deck.MissingCardShowsOnlyError` | app.js:43-54 | A `beforeAfter` slide missing `left` or `right`, at any position, leaves the error message and no slide element at all. |
| `Deck.TitleSlideMarkup` | app.js:33-34 | A title slide with headline `Hi` and subheadline `World` builds to `<h1>` then `<p>`; the `<h2>` is overwritten. |
| `Deck.TitleSlideScenario` | app.js:14-34 | Loading the one-slide title deck renders one inactive `slide title-slide` section holding that `<h1>` and `<p>`, and installs the observer and key handler. |
| `Activation.OnIntersect` | app.js:65-70 | After a batch of entries, a slide is active iff it was active before or some entry reported it intersecting. Only the flag changes and the slide count is kept. |
| `Activation.Mark` | app.js:67-68 | One intersecting entry sets its slide's flag, a non-intersecting one leaves it. No other slide and nothing else about the slide changes. |
| `Activation.ActiveIsOneWay` | app.js:66-69 | Over any number of observer callbacks, an active slide stays active, the number of slides is unchanged, and nothing about a slide but its flag changes. |
| `Keyboard.OnKeyDown` | app.js:78-86 | Space/ArrowDown/ArrowRight scroll by +innerHeight with `preventDefault`. ArrowUp/ArrowLeft scroll by −innerHeight with `preventDefault`. `preventDefault` is called iff the key is one of those five, and a scroll happens iff `preventDefault` is called. |
| `Keyboard.KeyOnPage` | app.js:15-23 | A key on the loaded page acts as the handler says exactly when the fetch succeeded and every slide rendered. When loading failed, the handler was never installed and no key scrolls or prevents default. |
| `Keyboard.AdvanceThenRetreatCancels` | app.js:79-85 | Any advance key followed by any retreat key scrolls by opposite amounts. |
| `Pdf.Pages` | app.js:101-121 | A document has one page more than the `addPage` calls made on it: the constructor's page. |
| `Pdf.PagesAfterCall` | app.js:120-121 | `addPage` appends one empty page. `addImage` draws only on the last page. Each call bumps only its own count. |
| `Export.LoadScript` | app.js:137-146 | `loadScript` rejects only for a new tag whose request fails. With an existing tag it changes nothing. It inserts at most one tag, keeps existing tags as a prefix, and never creates a duplicate. A library becomes defined only by a new, successful load. |
| `Export.LoadScriptIdempotent` | app.js:139 | A second `loadScript` of the same URL, on any network, resolves and leaves the page unchanged. |
| `Export.ForceActive` | app.js:106-107 | The clone has the live slide's class and content and is active, whatever the live slide's flag. An already active slide is its own clone. |
| `Export.ExpectedPagesGrow` | app.js:120-121 | Each iteration adds exactly one page holding that slide's image after the earlier pages. The first slide uses the initial page. |
| `Export.AddSlidePageKeepsInvariant` | app.js:120-121 | One iteration at index `i` adds one image and, only when `i > 0`, one page. The pages then hold exactly the first `i + 1` slides' images, one per page. |
| `Export.CallsForMatchSlides` | app.js:105-122 | For `n` slides the loop makes `n` `addImage` and `n−1` `addPage` calls (none for `n = 0`), and page `i` holds exactly slide `i`'s active clone. |
| `Export.SlideLoop` | app.js:105-122 | The loop throws iff some remaining slide cannot be rasterised. On success it made exactly the calls of the complete loop, and the stage holds only the last clone. On a throw the stage holds only the clone of the first slide that could not be rasterised. |
| `Export.BuildAndSave` | app.js:100-124 | The document is saved iff there are no slides, or the rasteriser is defined and no slide fails to rasterise. A save adds one `FlowPitch.pdf` with the reference pages. Only the stage and the downloads change. |
| `Export.LoadLibraries` | app.js:97-98 | Both loads resolve iff each URL already has a tag or is reachable. When the rasteriser's load rejects, only its tag is added and the PDF library is not requested. Each library is then defined exactly when it was before or is newly and successfully loaded. A tag whose script never ran never gets its library defined. Only the two library URLs can be added, without duplicates. |
| `Export.ExportBody` | app.js:96-125 | The `try` block saves iff `ExportSucceeds`, and then saves exactly one file whose pages are the reference pages. Otherwise nothing is saved. Button, flag, slides and alerts are untouched. The script tags and libraries are those the two loads leave, whether or not the body later throws. |
| `Export.Busy` | app.js:92-94 | The button is disabled and reads `Exporting...`, and the page is in export mode; nothing else changes. |
| `Export.Finally` | app.js:129-134 | Afterwards the page is idle: button enabled and reading `Export PDF`, export mode off, stage empty. Nothing else changes. |
| `Export.FinallyUndoesBusy` | app.js:129-134 | On an idle page, the busy state followed by the `finally` block restores the page exactly. |
| `Export.ExportClick` | app.js:91-135 | On every path the button ends enabled with text `Export PDF`, `exportingPdf` is removed and the stage is empty. The export is all-or-nothing: one file with one page per slide (one blank page when there are none) and no alert, or no file and exactly the fixed alert. Live slides are never changed, and script tags are never duplicated. When the rasteriser's load rejects, the PDF library is not requested. |
| `Export.BusyThroughoutBody` | app.js:92-94 | While the `try` block runs, the button is disabled and reads `Exporting...`, and the page is in export mode. |
| `Export.SavedPagesFollowSlides` | app.js:105-124 | The saved `FlowPitch.pdf` has one page per slide (one blank page for none). Page `i` holds one image, drawn from an active clone with slide `i`'s class and content, whatever the live slide's state. |
| `Export.RepeatedExportsKeepScriptsUnique` | app.js:137-146 | Across any number of exports on any networks, no script URL is ever inserted twice, only the two library URLs are added, and the live slides never change. After at least one export the button is idle and the stage empty. |
| `Export.DeadTagStaysDead` | app.js:139 | A script tag whose code never ran stays in the head and its library stays undefined across any number of later exports. |
| `Export.FailedCanvasLoadIsNotRetried` | app.js:139-143 | After the rasteriser's script failed once, that export and every later export of the non-empty deck fail, over any sequence of later networks. |
| `Export.FailedPdfLoadIsNotRetried` | app.js:98-100 | After the PDF library's script failed once, that export and every later export fail, even of an empty deck, over any sequence of later networks. |
| `Export.EmptyDeckSavesBlankPage` | app.js:101-124 | With no slides and both libraries available, `save` is still called once, on the single blank initial page, and no alert is shown. |
| `Page.ExportAfterScrolling` | app.js:105-124 | After any observer callbacks, a successful export saves page `i` from section `i` as rendered, forced active. |
| `Page.LoadedDeckExportsInSlideOrder` | app.js:105-124 | Input order is page order: after loading from `xs` and any observer callbacks, a successful export saves one page per slide, page `i` holding exactly the image of slide `xs[i]`'s class and markup, active. |

## Left out

- `fetch` and `response.json()` (app.js:16-17): network I/O. The model takes the outcome as a parameter, either
  the parsed `slides` array or a failure. A document whose `slides` is not an array is one such failure.
- `setNavOffset` and the resize listener (app.js:7-12): layout measurement with no logic.
- The intersection geometry and the 0.3 threshold: the browser computes them. An entry carries only its target
  slide and `isIntersecting`.
- `Activation.OnIntersect`: requires every entry to be about a rendered slide, because the observer is only
  attached to those.
- `html2canvas`, `toDataURL` and the PDF library's internals: opaque libraries. A raster image is identified by
  the clone it was drawn from. Whether the iteration for slide `i` throws is a parameter (`rasterFails`). It
  covers a throw from `html2canvas`, `toDataURL`, `addPage` or `addImage`, which all end the loop the same way.
- The `jsPDF` constructor (app.js:101) and `pdf.save` (app.js:124) are taken never to throw. If they could, an
  export with both libraries defined could still end in the alert. `ExportSucceeds` and every "saves iff"
  contract (`BuildAndSave`, `ExportBody`, `ExportClick`) rest on this assumption.
- The page format (1920×1080, landscape), the `#050611` background, the `Math.max(devicePixelRatio, 2)` scale
  and the `useCORS` option: rendering options passed to the libraries, with no effect on the page structure.
- Smooth scrolling and clamping at the ends of the container: the browser does these. The model records the
  requested offset.
- `console.error`: a diagnostic. The `alert` is kept as an entry in the page's alert log.
- Promise timing, a second click while an export is pending, and a script tag whose load is still pending:
  event-loop concurrency. Each export runs to completion before the next starts.
- The initial page: the page's HTML is not part of this model. It is assumed to hold an empty deck container
  and an empty stage. At every later click the stage is empty, as the `finally` block leaves it.
- Markup inside slide text: text is spliced in unescaped, so a headline or bullet could itself create a
  `.slide` element or a `<script>` tag, and a `type` with spaces could add classes such as `is-active`. The
  content is assumed to do none of this. Under that assumption, together with the empty stage at every click,
  `querySelectorAll('.slide')` (app.js:64 and app.js:102) finds exactly the rendered sections, a new section is
  inactive, and only `loadScript` inserts script tags.
- The exact markup of the error notice (app.js:22): the model records only that it replaces the deck.
- Browser parsing of the `innerHTML` string: the model produces the markup text, not a DOM tree.
- Values in `content.json` of a type other than text or list (numbers, objects as headlines): the JSON is taken
  to hold strings and string lists where the template expects them.
