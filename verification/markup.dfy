/** The exact HTML text `renderDeck` assigns to a section's `innerHTML`
    (app.js:32-54): every fragment's template, with the text spliced in
    verbatim and no escaping. */
module Markup {
  import opened Slides

  /** `items.map(b => `<li>${b}</li>`).join('')` */
  function ListItems(items: seq<string>): string
    decreases |items|
  {
    if |items| == 0 then "" else "<li>" + items[0] + "</li>" + ListItems(items[1..])
  }

  /** The template of one fragment, character for character; the split
      grid keeps the line breaks and indentation of its template literal. */
  function FragmentHtml(f: Fragment): string
  {
    match f
    case H1(t) => "<h1 data-animate=\"1\">" + t + "</h1>"
    case H2(t) => "<h2 data-animate=\"1\">" + t + "</h2>"
    case P(t) => "<p data-animate=\"2\">" + t + "</p>"
    case Ul(items) => "<ul data-animate=\"3\">" + ListItems(items) + "</ul>"
    case Split(l, r) =>
      "\n          <div class=\"split-grid\" data-animate=\"3\">"
      + "\n            <div class=\"card\">"
      + "\n              <h3>" + l.title + "</h3>"
      + "\n              <ul>" + ListItems(l.items) + "</ul>"
      + "\n            </div>"
      + "\n            <div class=\"card\" style=\"border-color: var(--accent);\">"
      + "\n              <h3>" + r.title + "</h3>"
      + "\n              <ul>" + ListItems(r.items) + "</ul>"
      + "\n            </div>"
      + "\n          </div>"
  }

  /** The `html` string: the fragments' templates concatenated in order. */
  function InnerHtml(frags: seq<Fragment>): string
    decreases |frags|
  {
    if |frags| == 0 then "" else FragmentHtml(frags[0]) + InnerHtml(frags[1..])
  }

  /** Joining the `<li>` items of two lists one after the other is the same
      as joining each and concatenating: the list keeps its input order. */
  lemma {:induction false} ListItemsAppend(a: seq<string>, b: seq<string>)
    ensures ListItems(a + b) == ListItems(a) + ListItems(b)
    decreases |a|
  {
    if |a| == 0 {
      assert a + b == b;
    } else {
      assert (a + b)[1..] == a[1..] + b;
      ListItemsAppend(a[1..], b);
    }
  }

  /** Bullet `i` appears verbatim, wrapped in its own `<li>`, after the
      markup of every earlier bullet and before that of every later one. */
  lemma ListItemVerbatim(items: seq<string>, i: nat)
    requires i < |items|
    ensures ListItems(items)
      == ListItems(items[..i]) + ("<li>" + items[i] + "</li>") + ListItems(items[i + 1..])
  {
    var item := "<li>" + items[i] + "</li>";
    var before := ListItems(items[..i]);
    var after := ListItems(items[i + 1..]);
    assert items == items[..i] + items[i..];
    ListItemsAppend(items[..i], items[i..]);
    assert items[i..][1..] == items[i + 1..];
    assert ListItems(items[i..]) == item + after;
    assert ListItems(items) == before + (item + after);
  }

  /** The markup of a fragment sequence is the markup of its parts in order. */
  lemma {:induction false} InnerHtmlAppend(a: seq<Fragment>, b: seq<Fragment>)
    ensures InnerHtml(a + b) == InnerHtml(a) + InnerHtml(b)
    decreases |a|
  {
    if |a| == 0 {
      assert a + b == b;
    } else {
      assert (a + b)[1..] == a[1..] + b;
      InnerHtmlAppend(a[1..], b);
    }
  }

  /** Two fragments render one after the other. */
  lemma InnerHtmlOfPair(a: Fragment, b: Fragment)
    ensures InnerHtml([a, b]) == FragmentHtml(a) + FragmentHtml(b)
  {
    assert [a, b][1..] == [b];
    assert [b][1..] == [];
    assert InnerHtml([b]) == FragmentHtml(b) + InnerHtml([]);
  }

  /** A heading or paragraph is its opening tag, the text verbatim (no
      escaping), and its closing tag: the text can be read back from
      between the tags. */
  lemma HeadingTextVerbatim(f: Fragment)
    requires f.H1? || f.H2? || f.P?
    ensures var html := FragmentHtml(f);
      var open := if f.P? then 20 else 21;
      && |html| == open + |f.text| + (if f.P? then 4 else 5)
      && html[open..open + |f.text|] == f.text
      && html[..3] == (if f.H1? then "<h1" else if f.H2? then "<h2" else "<p ")
  {
  }

  /** A list is its opening tag, then the `<li>` join of its items, then
      `</ul>`; with no items it is an empty `<ul>`. */
  lemma ListTextVerbatim(items: seq<string>)
    ensures var html := FragmentHtml(Ul(items));
      && |html| == 26 + |ListItems(items)|
      && html[21..21 + |ListItems(items)|] == ListItems(items)
    ensures |items| == 0 ==> FragmentHtml(Ul(items)) == "<ul data-animate=\"3\"></ul>"
  {
  }

  /** The split grid starts with the left card's title, verbatim, at a
      fixed offset after the grid and card openings. */
  lemma SplitLeftTitleVerbatim(l: CardBlock, r: CardBlock)
    ensures var html := FragmentHtml(Split(l, r));
      |html| >= 102 + |l.title| && html[102..102 + |l.title|] == l.title
  {
  }

  /** No fragment renders to the empty string, so the markup of a slide is
      empty exactly when it has no fragment. */
  lemma InnerHtmlEmpty(frags: seq<Fragment>)
    ensures InnerHtml(frags) == "" <==> |frags| == 0
  {
  }

  /** The title slide's markup, `<h1>` then `<p>`, as text. */
  lemma TitleSlideHtml()
    ensures InnerHtml([H1("Hi"), P("World")])
      == "<h1 data-animate=\"1\">Hi</h1>" + "<p data-animate=\"2\">World</p>"
  {
  }
}
