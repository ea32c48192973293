/** Loading the content document and rendering the deck (app.js:14-60):
    one `<section>` per slide, appended in input order; any error thrown
    while fetching, parsing or rendering replaces the whole container with
    a fixed error message. */
module Deck {
  import opened JsValues
  import opened Slides

  /** A rendered `<section>`: its class attribute as set by the renderer,
      the fragments of its inner HTML, and whether `is-active` was added. */
  datatype Section = Section(className: string, content: seq<Fragment>, active: bool)

  /** What the fetch of `content.json` and its parse yielded: the `slides`
      array, or a failure of the request or of the JSON parse. */
  datatype Fetch = Fetched(slides: seq<Slide>) | FetchFailed

  /** The deck container's children after loading: the rendered sections,
      or only the `<h2>` "Error loading content.json" that the `catch`
      block writes in their place. */
  datatype Container = Sections(sections: seq<Section>) | ErrorNotice

  /** The page after loading: the container, and whether the observer and
      the keyboard handler were installed (only when rendering finished). */
  datatype App = App(container: Container, listening: bool)

  /** `slide ${slide.type}-slide` */
  function SlideClass(s: Slide): string
  {
    "slide " + Interpolate(s.kind) + "-slide"
  }

  /** The slide's type can be read back from its class: `slide ` before
      it, `-slide` after it, and `undefined` when the slide has none. */
  lemma SlideClassNamesKind(s: Slide)
    ensures var c := SlideClass(s);
      && |c| == 12 + |Interpolate(s.kind)|
      && c[..6] == "slide " && c[|c| - 6..] == "-slide"
      && c[6..|c| - 6] == (if s.kind.Some? then s.kind.value else "undefined")
  {
  }

  /** One `<section>` for one slide, not yet active. */
  function RenderSlide(s: Slide): (r: Result<Section, RenderError>)
    ensures r.Success? <==> BuildHtml(s).Success?
    ensures r.Failure? ==> r.error == BuildHtml(s).error
    ensures r.Success? ==> r.value.className == SlideClass(s)
    ensures r.Success? ==> !r.value.active && r.value.content == BuildHtml(s).value
  {
    match BuildHtml(s)
    case Failure(e) => Failure(e)
    case Success(html) => Success(Section(SlideClass(s), html, false))
  }

  /** A `forEach` whose callback may throw: the results of `f` on every
      element in order, or the error of the first element `f` throws on
      (the later elements are never visited). */
  function ForEachOrThrow<A, B, E>(xs: seq<A>, f: A -> Result<B, E>): (r: Result<seq<B>, E>)
    ensures r.Success? <==> forall i :: 0 <= i < |xs| ==> f(xs[i]).Success?
    ensures r.Success? ==> |r.value| == |xs|
    ensures r.Success? ==> forall i :: 0 <= i < |xs| ==> Success(r.value[i]) == f(xs[i])
    ensures r.Failure? ==>
      exists k :: 0 <= k < |xs| && f(xs[k]) == Failure(r.error) &&
        forall j :: 0 <= j < k ==> f(xs[j]).Success?
    decreases |xs|
  {
    if |xs| == 0 then Success([])
    else
      match f(xs[0])
      case Failure(e) => Failure(e)
      case Success(y) =>
        var tail := xs[1..];
        match ForEachOrThrow(tail, f)
        case Failure(e) =>
          // the first failure of the tail, shifted by one
          ghost var k :| 0 <= k < |tail| && f(tail[k]) == Failure(e)
            && forall j :: 0 <= j < k ==> f(tail[j]).Success?;
          assert tail[k] == xs[k + 1];
          assert forall j :: 1 <= j < k + 1 ==> tail[j - 1] == xs[j];
          Failure(e)
        case Success(rest) =>
          var r := [y] + rest;
          assert forall i :: 1 <= i < |xs| ==> r[i] == rest[i - 1] && tail[i - 1] == xs[i];
          Success(r)
  }

  /** `slides.forEach(...)`: one inactive section per slide, in input
      order, with the slide's class and markup; or the error of the first
      slide whose markup throws. */
  function RenderDeck(slides: seq<Slide>): (r: Result<seq<Section>, RenderError>)
    ensures r.Success? <==> forall i :: 0 <= i < |slides| ==> BuildHtml(slides[i]).Success?
    ensures r.Success? ==> |r.value| == |slides|
    ensures r.Success? ==> forall i :: 0 <= i < |slides| ==>
      && r.value[i].className == SlideClass(slides[i])
      && r.value[i].content == BuildHtml(slides[i]).value
      && !r.value[i].active
    ensures r.Failure? ==>
      exists k :: 0 <= k < |slides| && BuildHtml(slides[k]) == Failure(r.error) &&
        forall j :: 0 <= j < k ==> BuildHtml(slides[j]).Success?
  {
    ForEachOrThrow(slides, RenderSlide)
  }

  /** The `try`/`catch` of app.js:15-23 on an initially empty container:
      either every slide's section, with the observer and keys installed,
      or only the error message. */
  function Load(f: Fetch): (app: App)
    ensures app.listening <==> app.container.Sections?
    ensures app.container.Sections? <==>
      f.Fetched? && forall i :: 0 <= i < |f.slides| ==> BuildHtml(f.slides[i]).Success?
    ensures app.container.Sections? ==> |app.container.sections| == |f.slides|
    ensures app.container.Sections? ==> forall i :: 0 <= i < |f.slides| ==>
      && app.container.sections[i].className == SlideClass(f.slides[i])
      && app.container.sections[i].content == BuildHtml(f.slides[i]).value
      && !app.container.sections[i].active
  {
    match f
    case FetchFailed => App(ErrorNotice, false)
    case Fetched(slides) =>
      match RenderDeck(slides)
      case Failure(_) => App(ErrorNotice, false)
      case Success(sections) => App(Sections(sections), true)
  }

  /** `document.querySelectorAll('.slide')`: the rendered sections, and
      none once the error message has replaced them. */
  function SlideElements(c: Container): seq<Section>
  {
    match c
    case Sections(sections) => sections
    case ErrorNotice => []
  }

  /** Once loaded, section `i` made active is slide `xs[i]`'s class and
      markup, active. */
  lemma LoadedSectionsFollowSlides(xs: seq<Slide>)
    requires Load(Fetched(xs)).container.Sections?
    ensures var sections := Load(Fetched(xs)).container.sections;
      forall i :: 0 <= i < |xs| ==>
        sections[i].(active := true) == Section(SlideClass(xs[i]), BuildHtml(xs[i]).value, true)
  {
  }

  /** A before/after slide without one of its cards leaves no slide at
      all on the page, not even the slides before it. */
  lemma MissingCardShowsOnlyError(slides: seq<Slide>, k: nat)
    requires k < |slides|
    requires slides[k].kind == Some(BeforeAfterKind)
    requires slides[k].left.None? || slides[k].right.None?
    ensures Load(Fetched(slides)) == App(ErrorNotice, false)
    ensures SlideElements(Load(Fetched(slides)).container) == []
  {
  }

  /** The one-slide title deck of the example content. */
  const TitleSlide := Slide(Some("title"), Some("Hi"), Some("World"), None, None, None)

  /** The title scenario, markup part: a `title` slide with headline and
      subheadline is exactly `<h1>` then `<p>`, with no `<h2>`. */
  lemma TitleSlideMarkup()
    ensures BuildHtml(TitleSlide) == Success([H1("Hi"), P("World")])
  {
  }

  /** The title scenario, deck part: the deck is one `title-slide`
      section holding that markup, and the page listens for keys. */
  lemma TitleSlideScenario()
    ensures Load(Fetched([TitleSlide]))
      == App(Sections([Section("slide title-slide", [H1("Hi"), P("World")], false)]), true)
  {
    TitleSlideMarkup();
    assert SlideClass(TitleSlide) == "slide title-slide";
    var r := RenderDeck([TitleSlide]);
    assert r.Success? && |r.value| == 1;
    assert r.value == [r.value[0]];
  }
}
