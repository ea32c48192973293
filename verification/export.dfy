/** The "Export PDF" click handler (app.js:91-146) as a state machine over
    the parts of the page it touches: the button, the `exportingPdf` body
    class, the staging element, the `<script>` tags in the head, the
    libraries whose scripts ran, the alerts shown and the files saved.
    The network and the rasteriser are parameters: which script URLs load,
    and at which slides `html2canvas` throws. */
module Export {
  import opened JsValues
  import opened Deck
  import opened Pdf

  const Html2CanvasUrl := "https://cdnjs.cloudflare.com/ajax/libs/html2canvas/1.4.1/html2canvas.min.js"
  const JsPdfUrl := "https://cdnjs.cloudflare.com/ajax/libs/jspdf/2.5.1/jspdf.umd.min.js"
  const IdleLabel := "Export PDF"
  const BusyLabel := "Exporting..."
  const FailureAlert := "Failed to load export libraries. Ensure cdnjs.cloudflare.com is allowed or check your network."

  /** The page as the export sees it. `slides` are the live `.slide`
      sections; `scripts` the `src` of every script tag in document order;
      `libraries` the scripts whose code ran, defining their global. */
  datatype Document = Document(
    slides: seq<Section>,
    disabled: bool,
    buttonText: string,
    exportingPdf: bool,
    stage: seq<Section>,
    scripts: seq<string>,
    libraries: set<string>,
    alerts: seq<string>,
    downloads: seq<Download>)

  /** The outside world during one export: the script URLs whose request
      succeeds, and the slide indices at which the iteration throws. A
      throw from `html2canvas`, `canvas.toDataURL`, `addPage` or `addImage`
      at slide `i` ends the loop the same way, so all four are folded into
      `rasterFails`. The PDF constructor and `save` are taken never to
      throw. */
  datatype Network = Network(reachable: set<string>, rasterFails: set<nat>)

  /** A settled `loadScript` promise and the page after it. */
  datatype ScriptLoad = ScriptLoad(doc: Document, resolved: bool)

  /** `loadScript(src)`: an existing tag with that `src` resolves at once
      and nothing is inserted; otherwise a tag is appended, and the promise
      resolves (the library is defined) or rejects as the request goes. */
  function LoadScript(doc: Document, net: Network, src: string): (r: ScriptLoad)
    ensures r.resolved <==> src in doc.scripts || src in net.reachable
    ensures src in r.doc.scripts
    ensures src in doc.scripts ==> r.doc == doc
    ensures doc.scripts <= r.doc.scripts && |r.doc.scripts| <= |doc.scripts| + 1
    ensures NoDuplicates(doc.scripts) ==> NoDuplicates(r.doc.scripts)
    ensures src in r.doc.libraries <==> src in doc.libraries || (src !in doc.scripts && src in net.reachable)
    ensures r.doc.libraries - doc.libraries <= {src} && doc.libraries <= r.doc.libraries
    ensures r.doc == doc.(scripts := r.doc.scripts, libraries := r.doc.libraries)
  {
    if src in doc.scripts then ScriptLoad(doc, true)
    else
      var tagged := doc.(scripts := doc.scripts + [src]);
      if src in net.reachable then ScriptLoad(tagged.(libraries := tagged.libraries + {src}), true)
      else ScriptLoad(tagged, false)
  }

  /** `loadScript` is idempotent: a second call with the same URL, on any
      network, resolves without changing the page. */
  lemma LoadScriptIdempotent(doc: Document, net: Network, later: Network, src: string)
    ensures LoadScript(LoadScript(doc, net, src).doc, later, src) == ScriptLoad(LoadScript(doc, net, src).doc, true)
  {
  }

  /** `loadScript(url)` settles without rejecting. */
  predicate Resolves(doc: Document, net: Network, url: string)
  {
    url in doc.scripts || url in net.reachable
  }

  /** After `loadScript(url)` the library's global is defined: its script
      had already run, or its tag is new and loads now. */
  predicate Defined(doc: Document, net: Network, url: string)
  {
    url in doc.libraries || (url !in doc.scripts && url in net.reachable)
  }

  /** `html2canvas(stage, ...)` throws at slide `i`: the global is not
      defined, or rasterising that slide fails. */
  predicate RasterThrows(canvasDefined: bool, rasterFails: set<nat>, i: nat)
  {
    !canvasDefined || i in rasterFails
  }

  /** Slide `k` is the first slide from `i` on at which `html2canvas`
      throws: the loop's `await` rejects there. */
  predicate FirstThrow(canvasDefined: bool, rasterFails: set<nat>, i: nat, k: nat)
  {
    i <= k && RasterThrows(canvasDefined, rasterFails, k)
    && forall j :: i <= j < k ==> !RasterThrows(canvasDefined, rasterFails, j)
  }

  /** When the click ends with a saved file: both scripts settle without
      rejecting, the PDF library is defined, and with at least one slide the
      rasteriser is defined and draws every slide. */
  predicate ExportSucceeds(doc: Document, net: Network)
  {
    && Resolves(doc, net, Html2CanvasUrl)
    && Resolves(doc, net, JsPdfUrl) && Defined(doc, net, JsPdfUrl)
    && (|doc.slides| == 0 ||
        (Defined(doc, net, Html2CanvasUrl) && forall i :: 0 <= i < |doc.slides| ==> i !in net.rasterFails))
  }

  /** `slides[i].cloneNode(true)` with `is-active` added: the same section,
      active whatever the live slide's flag is. */
  function ForceActive(s: Section): (clone: Section)
    ensures clone.active
    ensures clone.className == s.className && clone.content == s.content
    ensures s.active ==> clone == s
  {
    s.(active := true)
  }

  /** Reference page list of an export: one page per slide, in slide order,
      each holding exactly the image of that slide's active clone; with no
      slide, the document's initial blank page. */
  function ExpectedPages(slides: seq<Section>): seq<seq<Image>>
  {
    if |slides| == 0 then [[]]
    else seq(|slides|, i requires 0 <= i < |slides| => [Png(ForceActive(slides[i]))])
  }

  /** One more iteration adds exactly one page, holding slide `i`'s image,
      after the pages of the earlier slides (the first slide uses the
      initial page). */
  lemma ExpectedPagesGrow(slides: seq<Section>, i: nat)
    requires i < |slides|
    ensures i == 0 ==> ExpectedPages(slides[..i + 1]) == [[Png(ForceActive(slides[i]))]]
    ensures i > 0 ==>
      ExpectedPages(slides[..i + 1]) == ExpectedPages(slides[..i]) + [[Png(ForceActive(slides[i]))]]
  {
  }

  /** The state of the `for` loop of app.js:105-122 between iterations. */
  datatype LoopState = LoopState(stage: seq<Section>, calls: seq<PdfCall>, threw: bool)

  /** `if (i > 0) pdf.addPage(...); pdf.addImage(img, ...)`: the calls
      iteration `i` makes. */
  function AddSlidePage(calls: seq<PdfCall>, i: nat, img: Image): seq<PdfCall>
  {
    (if i > 0 then calls + [AddPage] else calls) + [AddImage(img)]
  }

  /** The calls the loop makes for `slides` when nothing throws, one
      iteration after another. */
  function CallsFor(slides: seq<Section>): seq<PdfCall>
    decreases |slides|
  {
    if |slides| == 0 then []
    else
      var i := |slides| - 1;
      AddSlidePage(CallsFor(slides[..i]), i, Png(ForceActive(slides[i])))
  }

  /** One iteration keeps the loop invariant: after it, `i + 1` images and
      `i` extra pages were added, and page `j` holds slide `j`'s image for
      every `j <= i`. */
  lemma AddSlidePageKeepsInvariant(slides: seq<Section>, i: nat, calls: seq<PdfCall>)
    requires i < |slides|
    requires AddImageCount(calls) == i
    requires AddPageCount(calls) == if i == 0 then 0 else i - 1
    requires Pages(calls) == ExpectedPages(slides[..i])
    ensures var next := AddSlidePage(calls, i, Png(ForceActive(slides[i])));
      && AddImageCount(next) == i + 1
      && AddPageCount(next) == i
      && Pages(next) == ExpectedPages(slides[..i + 1])
  {
    var img := Png(ForceActive(slides[i]));
    var paged := if i > 0 then calls + [AddPage] else calls;
    PagesAfterCall(calls, AddPage);
    PagesAfterCall(paged, AddImage(img));
    ExpectedPagesGrow(slides, i);
    var before := Pages(paged);
    if i == 0 {
      assert before == [[]];
      assert Pages(paged + [AddImage(img)]) == before[..0] + [before[0] + [img]];
      assert before[0] + [img] == [img];
    } else {
      assert before == ExpectedPages(slides[..i]) + [[]];
      assert before[..i] == ExpectedPages(slides[..i]) && before[i] == [];
      assert Pages(paged + [AddImage(img)]) == before[..i] + [before[i] + [img]];
      assert before[i] + [img] == [img];
    }
  }

  /** For `n` slides the loop calls `addImage` `n` times and `addPage`
      `n - 1` times (never for `n = 0`), and the document's pages are the
      reference pages: page `i` holds slide `i`'s image and nothing else. */
  lemma {:induction false} CallsForMatchSlides(slides: seq<Section>)
    ensures AddImageCount(CallsFor(slides)) == |slides|
    ensures AddPageCount(CallsFor(slides)) == if |slides| == 0 then 0 else |slides| - 1
    ensures Pages(CallsFor(slides)) == ExpectedPages(slides)
    decreases |slides|
  {
    if |slides| > 0 {
      var i := |slides| - 1;
      assert slides[..i + 1] == slides;
      assert slides[..i][..i] == slides[..i];
      CallsForMatchSlides(slides[..i]);
      AddSlidePageKeepsInvariant(slides, i, CallsFor(slides[..i]));
    }
  }

  /** The loop from iteration `i` on: stage the clone alone, rasterise the
      stage, then add its page. It throws exactly when some remaining slide
      cannot be rasterised, and then the stage holds the clone of the
      first such slide alone; otherwise it made the calls of `CallsFor` and the stage holds
      the last slide's clone. */
  function SlideLoop(slides: seq<Section>, canvasDefined: bool, rasterFails: set<nat>, i: nat, st: LoopState): (r: LoopState)
    requires i <= |slides| && !st.threw
    requires st.calls == CallsFor(slides[..i])
    ensures r.threw <==> exists k :: i <= k < |slides| && RasterThrows(canvasDefined, rasterFails, k)
    ensures !r.threw ==> r.calls == CallsFor(slides)
    ensures !r.threw && i < |slides| ==> r.stage == [ForceActive(slides[|slides| - 1])]
    ensures !r.threw && i == |slides| ==> r.stage == st.stage
    ensures r.threw ==>
      exists k :: i <= k < |slides| && FirstThrow(canvasDefined, rasterFails, i, k) && r.stage == [ForceActive(slides[k])]
    decreases |slides| - i
  {
    if i == |slides| then
      assert slides[..i] == slides;
      st
    else
      var clone := ForceActive(slides[i]);
      if RasterThrows(canvasDefined, rasterFails, i) then LoopState([clone], st.calls, true)
      else
        assert slides[..i + 1][..i] == slides[..i];
        SlideLoop(slides, canvasDefined, rasterFails, i + 1, LoopState([clone], AddSlidePage(st.calls, i, Png(clone)), false))
  }

  /** The outcome of the `try` block: the page after it, and whether it
      reached `pdf.save` (otherwise it threw). */
  datatype Attempt = Attempt(doc: Document, saved: bool)

  /** app.js:101-124 once both libraries are loaded: build the document
      slide by slide and save it. It saves exactly when there is no slide,
      or the rasteriser is defined and draws every slide; the file then
      holds the reference pages. Only the stage and the downloads change. */
  function BuildAndSave(doc: Document, canvasDefined: bool, rasterFails: set<nat>): (r: Attempt)
    ensures r.saved <==>
      |doc.slides| == 0 || (canvasDefined && forall k :: 0 <= k < |doc.slides| ==> k !in rasterFails)
    ensures r.saved ==> r.doc.downloads == doc.downloads + [Download(FileName, ExpectedPages(doc.slides))]
    ensures !r.saved ==> r.doc.downloads == doc.downloads
    ensures r.doc == doc.(stage := r.doc.stage, downloads := r.doc.downloads)
    ensures r.doc.stage == doc.stage || exists k :: 0 <= k < |doc.slides| && r.doc.stage == [ForceActive(doc.slides[k])]
  {
    var slides := doc.slides;
    assert slides[..0] == [];
    var loop := SlideLoop(slides, canvasDefined, rasterFails, 0, LoopState(doc.stage, [], false));
    CallsForMatchSlides(slides);
    assert !loop.threw <==>
      (|slides| == 0 || (canvasDefined && forall k :: 0 <= k < |slides| ==> k !in rasterFails)) by {
      if |slides| > 0 && !canvasDefined {
        assert RasterThrows(canvasDefined, rasterFails, 0);
      }
      forall k | 0 <= k < |slides| && k in rasterFails
        ensures RasterThrows(canvasDefined, rasterFails, k)
      {
      }
    }
    var staged := doc.(stage := loop.stage);
    if loop.threw then Attempt(staged, false)
    else Attempt(staged.(downloads := staged.downloads + [Download(FileName, Pages(loop.calls))]), true)
  }

  /** The two `await loadScript(...)` of app.js:97-98, in order: the PDF
      library is only requested once the rasteriser's promise resolved.
      Afterwards each library is defined exactly as `Defined` says. */
  function LoadLibraries(doc: Document, net: Network): (r: ScriptLoad)
    ensures r.resolved <==> Resolves(doc, net, Html2CanvasUrl) && Resolves(doc, net, JsPdfUrl)
    ensures r.resolved ==> (Html2CanvasUrl in r.doc.libraries <==> Defined(doc, net, Html2CanvasUrl))
    ensures r.resolved ==> (JsPdfUrl in r.doc.libraries <==> Defined(doc, net, JsPdfUrl))
    ensures r.doc == doc.(scripts := r.doc.scripts, libraries := r.doc.libraries)
    ensures doc.scripts <= r.doc.scripts && Html2CanvasUrl in r.doc.scripts
    ensures Resolves(doc, net, Html2CanvasUrl) ==> JsPdfUrl in r.doc.scripts
    ensures forall u :: u in r.doc.scripts ==> u in doc.scripts || u == Html2CanvasUrl || u == JsPdfUrl
    ensures NoDuplicates(doc.scripts) ==> NoDuplicates(r.doc.scripts)
    ensures doc.libraries <= r.doc.libraries && r.doc.libraries - doc.libraries <= net.reachable
    ensures !Resolves(doc, net, Html2CanvasUrl) ==>
      r.doc.scripts == doc.scripts + [Html2CanvasUrl] && r.doc.libraries == doc.libraries
    ensures forall u :: u in doc.scripts && u !in doc.libraries ==> u !in r.doc.libraries
  {
    assert Html2CanvasUrl != JsPdfUrl by { assert Html2CanvasUrl[39] != JsPdfUrl[39]; }
    var h := LoadScript(doc, net, Html2CanvasUrl);
    if !h.resolved then h
    else LoadScript(h.doc, net, JsPdfUrl)
  }

  /** The `try` block of app.js:96-125: load both libraries, then build and
      save the document. Nothing outside the stage, the scripts, the
      libraries and the downloads changes. */
  function ExportBody(doc: Document, net: Network): (r: Attempt)
    ensures r.saved <==> ExportSucceeds(doc, net)
    ensures r.saved ==> r.doc.downloads == doc.downloads + [Download(FileName, ExpectedPages(doc.slides))]
    ensures !r.saved ==> r.doc.downloads == doc.downloads
    ensures r.doc == doc.(stage := r.doc.stage, scripts := r.doc.scripts,
                          libraries := r.doc.libraries, downloads := r.doc.downloads)
    ensures r.doc.scripts == LoadLibraries(doc, net).doc.scripts
    ensures r.doc.libraries == LoadLibraries(doc, net).doc.libraries
  {
    var loaded := LoadLibraries(doc, net);
    if !loaded.resolved then Attempt(loaded.doc, false)
    // `const { jsPDF } = window.jspdf` throws when the global is missing
    else if JsPdfUrl !in loaded.doc.libraries then Attempt(loaded.doc, false)
    else BuildAndSave(loaded.doc, Html2CanvasUrl in loaded.doc.libraries, net.rasterFails)
  }

  /** The page between exports: button enabled and labelled "Export PDF",
      not in export mode, nothing staged. */
  predicate Idle(doc: Document)
  {
    !doc.disabled && doc.buttonText == IdleLabel && !doc.exportingPdf && doc.stage == []
  }

  /** The first three statements of the handler: the button is disabled,
      relabelled, and the body enters export mode. */
  function Busy(doc: Document): (busy: Document)
    ensures busy.disabled && busy.buttonText == BusyLabel && busy.exportingPdf
    ensures busy == doc.(disabled := true, buttonText := busy.buttonText, exportingPdf := true)
  {
    doc.(disabled := true, buttonText := BusyLabel, exportingPdf := true)
  }

  /** The `finally` block: export mode off, button enabled and relabelled,
      stage emptied. */
  function Finally(doc: Document): (idle: Document)
    ensures Idle(idle)
    ensures idle == doc.(disabled := false, buttonText := IdleLabel, exportingPdf := false, stage := idle.stage)
  {
    doc.(exportingPdf := false, disabled := false, buttonText := IdleLabel, stage := [])
  }

  /** The `finally` block undoes the busy state: on an idle page, entering
      and leaving export mode with nothing in between restores the page. */
  lemma FinallyUndoesBusy(doc: Document)
    requires Idle(doc)
    ensures Finally(Busy(doc)) == doc
  {
  }

  /** One click of the export button: busy state, the `try` block, the
      `catch` alert on any throw, and the `finally` cleanup on every path.
      The export is all-or-nothing: either one file with one page per slide
      is saved and no alert is shown, or nothing is saved and exactly the
      fixed alert is shown. */
  function ExportClick(doc: Document, net: Network): (after: Document)
    ensures Idle(after)
    ensures after.slides == doc.slides
    ensures ExportSucceeds(doc, net) ==>
      after.downloads == doc.downloads + [Download(FileName, ExpectedPages(doc.slides))] && after.alerts == doc.alerts
    ensures !ExportSucceeds(doc, net) ==>
      after.downloads == doc.downloads && after.alerts == doc.alerts + [FailureAlert]
    ensures doc.scripts <= after.scripts && Html2CanvasUrl in after.scripts
    ensures Resolves(doc, net, Html2CanvasUrl) ==> JsPdfUrl in after.scripts
    ensures forall u :: u in after.scripts ==> u in doc.scripts || u == Html2CanvasUrl || u == JsPdfUrl
    ensures NoDuplicates(doc.scripts) ==> NoDuplicates(after.scripts)
    ensures doc.libraries <= after.libraries && after.libraries - doc.libraries <= net.reachable
    ensures !Resolves(doc, net, Html2CanvasUrl) ==>
      after.scripts == doc.scripts + [Html2CanvasUrl] && after.libraries == doc.libraries
    ensures forall u :: u in doc.scripts && u !in doc.libraries ==> u !in after.libraries
  {
    var attempt := ExportBody(Busy(doc), net);
    var caught := if attempt.saved then attempt.doc else attempt.doc.(alerts := attempt.doc.alerts + [FailureAlert]);
    Finally(caught)
  }

  /** While the `try` block runs the button stays disabled, labelled
      "Exporting...", and the page stays in export mode; the live slides
      are only read, never changed. */
  lemma BusyThroughoutBody(doc: Document, net: Network)
    ensures var mid := ExportBody(Busy(doc), net).doc;
      mid.disabled && mid.buttonText == BusyLabel && mid.exportingPdf && mid.slides == doc.slides
      && mid.alerts == doc.alerts
  {
  }

  /** The saved file follows the deck: as many pages as slides (one blank
      page when there is none), page `i` holding only the image of slide
      `i`, drawn from a clone that is active whatever the live slide's
      state, with the live slide's class and content. */
  lemma SavedPagesFollowSlides(doc: Document, net: Network)
    requires ExportSucceeds(doc, net)
    ensures var saved := ExportClick(doc, net).downloads[|doc.downloads|];
      && saved.fileName == FileName
      && |saved.pages| == (if |doc.slides| == 0 then 1 else |doc.slides|)
      && (|doc.slides| == 0 ==> saved.pages == [[]])
      && forall i :: 0 <= i < |doc.slides| ==>
        && |saved.pages[i]| == 1
        && saved.pages[i][0].content.active
        && saved.pages[i][0].content.className == doc.slides[i].className
        && saved.pages[i][0].content.content == doc.slides[i].content
  {
  }

  /** Several clicks one after another. */
  function ExportRepeatedly(doc: Document, nets: seq<Network>): Document
    decreases |nets|
  {
    if |nets| == 0 then doc else ExportRepeatedly(ExportClick(doc, nets[0]), nets[1..])
  }

  /** However many exports run, on whatever networks, no script URL is ever
      inserted twice, only the two library URLs are ever added, the live
      slides never change, and after at least one export the button is
      back to idle with an empty stage. */
  lemma {:induction false} RepeatedExportsKeepScriptsUnique(doc: Document, nets: seq<Network>)
    requires NoDuplicates(doc.scripts)
    ensures NoDuplicates(ExportRepeatedly(doc, nets).scripts)
    ensures forall u :: u in ExportRepeatedly(doc, nets).scripts ==>
      u in doc.scripts || u == Html2CanvasUrl || u == JsPdfUrl
    ensures ExportRepeatedly(doc, nets).slides == doc.slides
    ensures |nets| > 0 ==>
      var after := ExportRepeatedly(doc, nets);
      Idle(after)
    decreases |nets|
  {
    if |nets| > 0 {
      var next := ExportClick(doc, nets[0]);
      RepeatedExportsKeepScriptsUnique(next, nets[1..]);
    }
  }

  /** A script tag whose code never ran stays that way: no later export
      inserts a second tag for its URL, so its library is never defined,
      and the live slides never change. */
  lemma {:induction false} DeadTagStaysDead(doc: Document, nets: seq<Network>, url: string)
    requires url in doc.scripts && url !in doc.libraries
    ensures url in ExportRepeatedly(doc, nets).scripts
    ensures url !in ExportRepeatedly(doc, nets).libraries
    ensures ExportRepeatedly(doc, nets).slides == doc.slides
    decreases |nets|
  {
    if |nets| > 0 {
      DeadTagStaysDead(ExportClick(doc, nets[0]), nets[1..], url);
    }
  }

  /** A rasteriser script that failed to load is never fetched again: its
      tag stays in the head, so every later `loadScript` resolves at once
      and, with at least one slide, `html2canvas` is missing. The export
      that failed and every later export of the non-empty deck fail,
      whatever the network does afterwards. */
  lemma FailedCanvasLoadIsNotRetried(doc: Document, first: Network, nets: seq<Network>, later: Network)
    requires Html2CanvasUrl !in doc.scripts && Html2CanvasUrl !in doc.libraries
    requires Html2CanvasUrl !in first.reachable
    requires |doc.slides| > 0
    ensures !ExportSucceeds(doc, first)
    ensures !ExportSucceeds(ExportRepeatedly(ExportClick(doc, first), nets), later)
  {
    DeadTagStaysDead(ExportClick(doc, first), nets, Html2CanvasUrl);
  }

  /** The same for the PDF library: once its script failed to load, the
      export and every later one fail, even of an empty deck, since
      `window.jspdf` stays undefined. */
  lemma FailedPdfLoadIsNotRetried(doc: Document, first: Network, nets: seq<Network>, later: Network)
    requires JsPdfUrl !in doc.scripts && JsPdfUrl !in doc.libraries
    requires JsPdfUrl !in first.reachable
    requires Resolves(doc, first, Html2CanvasUrl)
    ensures !ExportSucceeds(doc, first)
    ensures !ExportSucceeds(ExportRepeatedly(ExportClick(doc, first), nets), later)
  {
    DeadTagStaysDead(ExportClick(doc, first), nets, JsPdfUrl);
  }

  /** An empty deck (no slides, or the error message in place of the deck)
      exports a single blank page when both libraries load: `save` is still
      called once, with no `addPage` and no `addImage`. */
  lemma EmptyDeckSavesBlankPage(doc: Document, net: Network)
    requires |doc.slides| == 0
    requires Resolves(doc, net, Html2CanvasUrl)
    requires Resolves(doc, net, JsPdfUrl) && Defined(doc, net, JsPdfUrl)
    ensures ExportClick(doc, net).downloads == doc.downloads + [Download(FileName, [[]])]
    ensures ExportClick(doc, net).alerts == doc.alerts
  {
  }
}
