/** The intersection observer's callback (app.js:63-74): every entry that
    is intersecting adds `is-active` to its slide, and nothing ever removes
    it. The visibility computation itself (the 0.3 threshold) belongs to
    the browser; an entry only says which slide it is about and whether it
    is intersecting. */
module Activation {
  import opened Deck

  /** One `IntersectionObserverEntry`: the index of its target among the
      observed slides, and `isIntersecting`. */
  datatype Entry = Entry(target: nat, isIntersecting: bool)

  /** The observer watches exactly the rendered slides, so every entry is
      about one of them. */
  predicate AboutDeck(slideCount: nat, entries: seq<Entry>)
  {
    forall e :: e in entries ==> e.target < slideCount
  }

  /** Some entry of the batch reports slide `i` as intersecting. */
  predicate Intersecting(entries: seq<Entry>, i: nat)
  {
    exists e :: e in entries && e.target == i && e.isIntersecting
  }

  /** `entry.target.classList.add('is-active')` when the entry intersects. */
  function Mark(deck: seq<Section>, e: Entry): (r: seq<Section>)
    requires e.target < |deck|
    ensures |r| == |deck|
    ensures r[e.target].active <==> deck[e.target].active || e.isIntersecting
    ensures r[e.target] == deck[e.target].(active := r[e.target].active)
    ensures forall i :: 0 <= i < |deck| && i != e.target ==> r[i] == deck[i]
  {
    if e.isIntersecting then deck[e.target := deck[e.target].(active := true)] else deck
  }

  /** The callback on one batch of entries, processed in order: a slide is
      active afterwards exactly when it was active before or some entry
      reported it intersecting, and nothing but the flag changes. */
  function OnIntersect(deck: seq<Section>, entries: seq<Entry>): (r: seq<Section>)
    requires AboutDeck(|deck|, entries)
    ensures |r| == |deck|
    ensures forall i :: 0 <= i < |deck| ==> (r[i].active <==> deck[i].active || Intersecting(entries, i))
    ensures forall i :: 0 <= i < |deck| ==> r[i] == deck[i].(active := r[i].active)
    decreases |entries|
  {
    if |entries| == 0 then deck
    else
      var e := entries[0];
      var rest := entries[1..];
      assert forall x :: x in rest ==> x in entries;
      var r := OnIntersect(Mark(deck, e), rest);
      assert forall i :: Intersecting(entries, i) <==>
        (e.target == i && e.isIntersecting) || Intersecting(rest, i) by {
        forall i
          ensures Intersecting(entries, i) ==> (e.target == i && e.isIntersecting) || Intersecting(rest, i)
        {
          if Intersecting(entries, i) {
            var x :| x in entries && x.target == i && x.isIntersecting;
            if x != e {
              assert x in rest;
            }
          }
        }
      }
      r
  }

  /** The observer's callbacks over the life of the page, one batch after
      another. */
  function AfterBatches(deck: seq<Section>, batches: seq<seq<Entry>>): seq<Section>
    requires forall k :: 0 <= k < |batches| ==> AboutDeck(|deck|, batches[k])
    decreases |batches|
  {
    if |batches| == 0 then deck
    else
      var next := OnIntersect(deck, batches[0]);
      assert forall k :: 0 <= k < |batches| - 1 ==> batches[1..][k] == batches[k + 1];
      AfterBatches(next, batches[1..])
  }

  /** The flag is one-way: a slide active at some point stays active after
      any number of further callbacks, the number of slides never changes,
      and neither does anything about a slide but its flag. */
  lemma {:induction false} ActiveIsOneWay(deck: seq<Section>, batches: seq<seq<Entry>>)
    requires forall k :: 0 <= k < |batches| ==> AboutDeck(|deck|, batches[k])
    ensures |AfterBatches(deck, batches)| == |deck|
    ensures forall i :: 0 <= i < |deck| && deck[i].active ==> AfterBatches(deck, batches)[i].active
    ensures forall i :: 0 <= i < |deck| ==>
      AfterBatches(deck, batches)[i] == deck[i].(active := AfterBatches(deck, batches)[i].active)
    decreases |batches|
  {
    if |batches| > 0 {
      var next := OnIntersect(deck, batches[0]);
      assert forall k :: 0 <= k < |batches[1..]| ==> batches[1..][k] == batches[k + 1];
      ActiveIsOneWay(next, batches[1..]);
    }
  }
}
