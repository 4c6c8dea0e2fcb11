/** `fetch_reviews` for one product URL: load the page (an error there
    escapes to the caller), try to open the reviews panel, wait
    for the panel and its first review item, scroll until the item count
    stops growing, then turn the items of the last poll into records. A
    panel or item that never appears ends the attempt with a screenshot and
    no records. */
module Fetch {
  import opened ViewMore
  import opened Convergence
  import opened Extraction

  /** The page behind one URL as the program observes it: whether loading
      it succeeds, what each "View
      More" attempt finds, whether the panel and a first review item appear
      within their waits, and the review items each poll of the panel finds. */
  datatype Page = Page(
    loads: bool, viewMore: nat -> Probe, panelAppears: bool, itemAppears: bool,
    polls: seq<seq<RawElement>>)

  /** The item counts of the polls. */
  function Counts(polls: seq<seq<RawElement>>): (counts: seq<nat>)
    ensures |counts| == |polls|
    ensures forall i | 0 <= i < |polls| :: counts[i] == |polls[i]|
  {
    seq(|polls|, i requires 0 <= i < |polls| => |polls[i]|)
  }

  /** The end of one fetch: the records and the item numbers reported as
      failing, with `screenshot` set when the fetch failed before extraction;
      an exception escaping to the caller, when the page load fails; or no
      end at all, when the polls run out before the count settles. */
  datatype Fetched = Finished(reviews: seq<Review>, log: seq<nat>, screenshot: bool) | Aborted | Hangs

  method FetchReviews(page: Page, productId: int, pool: seq<Identity>, draw: nat -> Draw)
    returns (f: Fetched)
    ensures !page.loads <==> f.Aborted?
    ensures page.loads && (!page.panelAppears || !page.itemAppears) ==> f == Finished([], [], true)
    ensures page.loads && page.panelAppears && page.itemAppears ==>
      (f.Hangs? <==> forall n | 0 <= n <= |page.polls| :: Streak(Counts(page.polls)[..n]) < StagnationLimit)
    ensures page.loads && page.panelAppears && page.itemAppears && f.Finished? ==>
      !f.screenshot &&
      exists stop: nat :: IsStop(Counts(page.polls), stop)
        && f.reviews == Collected(page.polls[stop], productId, pool, draw)
        && f.log == FailureLog(page.polls[stop], productId, pool, draw)
  {
    if !page.loads {
      return Aborted;
    }
    var attempts, clicked, pauses := OpenPanel(page.viewMore);
    if !page.panelAppears || !page.itemAppears {
      return Finished([], [], true);
    }
    var counts := Counts(page.polls);
    var outcome := ScrollToConverge(counts);
    match outcome {
      case Unterminated =>
        f := Hangs;
      case Converged(stop, count, scrolls) =>
        var reviews, log := CollectReviews(page.polls[stop], productId, pool, draw);
        assert IsStop(counts, stop);
        f := Finished(reviews, log, false);
    }
  }
}
