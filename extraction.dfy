/** Turning the review items of the last poll into review records
    (`fetch_reviews`, "Collecting reviews"): each item is read on its own; an
    item whose stripped text is shorter than 20 characters or that shows fewer
    than 3 filled stars is dropped, an item whose reading raises is logged and
    skipped, and every other item becomes one record. */
module Extraction {
  import opened Text

  const MinLength: nat := 20
  const MinStars: nat := 3

  /** A review item of the page as the model sees it: its review text before
      stripping, its number of filled-star icons and the `src` of each
      thumbnail image; or an item whose reading raises. */
  datatype RawElement = Element(text: string, stars: nat, thumbSrcs: seq<string>) | Broken

  /** One entry of the name/email pool. */
  datatype Identity = Identity(name: string, email: string)

  /** The randomness spent on one item: the draw behind `random.choice` (the
      entry taken is `pick` modulo the pool size) and the opaque random date. */
  datatype Draw = Draw(pick: nat, date: string)

  /** One output row. */
  datatype Review = Review(
    content: string, score: nat, date: string, productId: int,
    displayName: string, email: string, orderId: string, media: string)

  /** What the loop body does with one item: drop it silently, log a failure,
      or append a record. */
  datatype Parse = Filtered | Failed | Record(review: Review)

  predicate PassesFilters(e: RawElement) {
    e.Element? && |Strip(e.text)| >= MinLength && e.stars >= MinStars
  }

  /** The loop body for one item. `random.choice` on an empty pool raises,
      so with an empty pool an item that passes the filters is a failure. */
  function ParseElement(e: RawElement, productId: int, pool: seq<Identity>, d: Draw): (p: Parse)
    ensures p.Record? <==> PassesFilters(e) && pool != []
    ensures p.Failed? <==> e.Broken? || (PassesFilters(e) && pool == [])
    ensures p.Record? ==>
      && p.review.content == Strip(e.text) && |p.review.content| >= MinLength
      && p.review.score == e.stars >= MinStars
      && p.review.productId == productId && p.review.orderId == "" && p.review.date == d.date
      && Identity(p.review.displayName, p.review.email) in pool
      && p.review.media == (if e.thumbSrcs == [] then "" else e.thumbSrcs[0])
  {
    match e
    case Broken => Failed
    case Element(text, stars, thumbSrcs) =>
      var content := Strip(text);
      if |content| < MinLength then Filtered
      else if stars < MinStars then Filtered
      else
        var media := if thumbSrcs != [] then thumbSrcs[0] else "";
        if pool == [] then Failed
        else
          var user := pool[d.pick % |pool|];
          Record(Review(content, stars, d.date, productId, user.name, user.email, "", media))
  }

  /** The records of the first `|es|` items; `draw(i)` is the randomness item `i` uses. */
  function Collected(es: seq<RawElement>, productId: int, pool: seq<Identity>, draw: nat -> Draw): (rs: seq<Review>)
    ensures |rs| <= |es|
  {
    if es == [] then []
    else
      var n := |es| - 1;
      Collected(es[..n], productId, pool, draw)
      + match ParseElement(es[n], productId, pool, draw(n)) {
          case Record(r) => [r]
          case _ => []
        }
  }

  /** The failure messages of the loop, as the 1-based item numbers they report. */
  function FailureLog(es: seq<RawElement>, productId: int, pool: seq<Identity>, draw: nat -> Draw): (log: seq<nat>)
    ensures |log| <= |es|
    ensures forall k | 0 <= k < |log| :: 1 <= log[k] <= |es|
  {
    if es == [] then []
    else
      var n := |es| - 1;
      FailureLog(es[..n], productId, pool, draw)
      + if ParseElement(es[n], productId, pool, draw(n)).Failed? then [n + 1] else []
  }

  /** The extraction loop: `reviews` is the list the loop appends to, `log`
      the items it reports as failing. */
  method CollectReviews(es: seq<RawElement>, productId: int, pool: seq<Identity>, draw: nat -> Draw)
    returns (reviews: seq<Review>, log: seq<nat>)
    ensures reviews == Collected(es, productId, pool, draw)
    ensures log == FailureLog(es, productId, pool, draw)
  {
    reviews, log := [], [];
    for idx := 0 to |es|
      invariant reviews == Collected(es[..idx], productId, pool, draw)
      invariant log == FailureLog(es[..idx], productId, pool, draw)
    {
      assert es[..idx + 1][..idx] == es[..idx];
      match ParseElement(es[idx], productId, pool, draw(idx)) {
        case Filtered =>
        case Failed =>
          log := log + [idx + 1];
        case Record(review) =>
          reviews := reviews + [review];
      }
    }
    assert es[..|es|] == es;
  }

  /** The positions of the items that yield a record, in item order. */
  ghost function Sources(es: seq<RawElement>, pool: seq<Identity>): seq<nat> {
    if es == [] then []
    else
      var n := |es| - 1;
      Sources(es[..n], pool) + if PassesFilters(es[n]) && pool != [] then [n] else []
  }

  /** The sources are item positions in strictly increasing order. */
  lemma {:induction false} SourcesOrdered(es: seq<RawElement>, pool: seq<Identity>)
    ensures forall k | 0 <= k < |Sources(es, pool)| :: Sources(es, pool)[k] < |es|
    ensures forall k, l | 0 <= k < l < |Sources(es, pool)| :: Sources(es, pool)[k] < Sources(es, pool)[l]
  {
    if es != [] {
      SourcesOrdered(es[..|es| - 1], pool);
    }
  }

  /** There is exactly one record per source item. */
  lemma {:induction false} SourcesCount(es: seq<RawElement>, productId: int, pool: seq<Identity>, draw: nat -> Draw)
    ensures |Sources(es, pool)| == |Collected(es, productId, pool, draw)|
  {
    if es != [] {
      SourcesCount(es[..|es| - 1], productId, pool, draw);
    }
  }

  /** An item is a source exactly when it passes both filters (given a
      non-empty pool): an item that raises is never one. */
  lemma {:induction false} SourcesMember(es: seq<RawElement>, pool: seq<Identity>, i: nat)
    requires i < |es|
    ensures i in Sources(es, pool) <==> PassesFilters(es[i]) && pool != []
  {
    var n := |es| - 1;
    SourcesOrdered(es[..n], pool);
    if i < n {
      SourcesMember(es[..n], pool, i);
      assert es[..n][i] == es[i];
    }
  }

  /** Record `k` is the one built from item `Sources[k]` with that item's
      own randomness: an item contributes nothing to another item's record. */
  lemma {:induction false} SourcesRecords(es: seq<RawElement>, productId: int, pool: seq<Identity>, draw: nat -> Draw, k: nat)
    requires k < |Sources(es, pool)|
    ensures Sources(es, pool)[k] < |es|
    ensures k < |Collected(es, productId, pool, draw)|
    ensures ParseElement(es[Sources(es, pool)[k]], productId, pool, draw(Sources(es, pool)[k]))
            == Record(Collected(es, productId, pool, draw)[k])
  {
    var n := |es| - 1;
    var init := es[..n];
    SourcesOrdered(init, pool);
    SourcesCount(init, productId, pool, draw);
    if k < |Sources(init, pool)| {
      SourcesRecords(init, productId, pool, draw, k);
      assert init[Sources(init, pool)[k]] == es[Sources(init, pool)[k]];
    }
  }

  /** Every record satisfies both filters, carries the stripped text and the
      star count of its item, the given product id, an empty order id, and a
      name and email taken from one pool entry. */
  lemma {:induction false} CollectedRecords(es: seq<RawElement>, productId: int, pool: seq<Identity>, draw: nat -> Draw)
    ensures forall r | r in Collected(es, productId, pool, draw) ::
      && |r.content| >= MinLength && r.score >= MinStars
      && r.productId == productId && r.orderId == ""
      && Identity(r.displayName, r.email) in pool
  {
    if es != [] {
      CollectedRecords(es[..|es| - 1], productId, pool, draw);
    }
  }

  /** With a one-entry pool every record carries that entry's name and email. */
  lemma SingleIdentity(es: seq<RawElement>, productId: int, id: Identity, draw: nat -> Draw)
    ensures forall r | r in Collected(es, productId, [id], draw) ::
      r.displayName == id.name && r.email == id.email
  {
    CollectedRecords(es, productId, [id], draw);
  }

  /** Item number `x` (1-based) is reported exactly when reading it raised,
      or when it passed the filters and the pool is empty. */
  lemma {:induction false} FailureLogMember(es: seq<RawElement>, productId: int, pool: seq<Identity>, draw: nat -> Draw, x: nat)
    ensures x in FailureLog(es, productId, pool, draw) <==>
      1 <= x <= |es| && (es[x - 1].Broken? || (PassesFilters(es[x - 1]) && pool == []))
  {
    if es != [] {
      var n := |es| - 1;
      FailureLogMember(es[..n], productId, pool, draw, x);
      if 1 <= x <= n {
        assert es[..n][x - 1] == es[x - 1];
      }
    }
  }
}
