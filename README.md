# AliExpress review scraper — a Dafny model of its review-collection core

The scraper opens each product URL in a browser that replays stored session
cookies. It clicks "View More" to open the reviews panel. It then scrolls the
panel until the number of review items stops growing, keeps the items with
enough text and stars, and appends them as rows to a CSV file, together with a
name/email pair drawn from a pool and a random date.

This project models the logic of `reviews.py` around the browser. Every
browser observation becomes an explicit input:

- `Text`: Python's `str.strip()` (with the exact set of characters
  `str.isspace()` accepts) and the substring test `sub in s`.
- `Urls`: `load_urls`. A missing file gives no URLs. A file that cannot be read
  raises, since only a missing file is caught. Otherwise the result is the
  stripped, non-blank lines, in file order.
- `Cookies`: the cookie loop of `load_cookies`. A cookie with a domain that does
  not occur in the URL is skipped. The other cookies are added in stored order.
  A missing or corrupt cookie file stops the run.
- `ViewMore`: the three-attempt "View More" loop, over an oracle `nat -> Probe`.
  `probe(k)` says what attempt `k` finds: no button, an exception, or a
  successful click.
- `Convergence`: the scroll-to-converge loop, over the finite sequence of item
  counts the polls return. It either stops at the third consecutive poll that
  is not above `prev_count`, or the counts run out. The program itself would
  keep polling in that case, so the model reports it as `Unterminated`.
- `Extraction`: the per-item loop. An item is a record
  `{text, stars, thumbSrcs}`, or `Broken` when reading it raises. The random
  pool choice and the random date are an injected `Draw` per item.
- `Output`: the append rule of `process_urls`, over an abstract file
  `Sink(present, rows)`. Each URL's call of `fetch_reviews` is a `Visit`: the
  records it returned, or an exception that escaped it. An escape ends the
  run (see "Findings").
- `Fetch`: `fetch_reviews` composed from the pieces above. The page load at
  its start is outside its `try`, so a page that fails to load ends the fetch
  in `Aborted`, an exception that reaches the caller.

Each loop of the source is a method with loop invariants. Each method is proved
against a specification function, or states its property directly. Lemmas
then prove what the source promises about those functions.

Three equal positive counts do not stop the scroll loop. A first poll that
shows at least one item is an increase over the initial `prev_count` of 0, so
three equal counts only bring the stagnation counter to 2, and a fourth equal
count stops it (`Convergence.EqualCountsNeedFourPolls`). Because the test is a
strict `>`, a first poll with no items is no increase: counts 0, 0, 0 stop at
the third poll (`Convergence.EmptyPollsStopAtThird`).

## Model

| member | source | states |
|---|---|---|
| `Text.Strip` | reviews.py:65 | the result is no longer than the input and has no whitespace at either end |
| `Text.StripSlice` | reviews.py:171 | the stripped text is the slice of the input between a run of leading and a run of trailing whitespace |
| `Text.StripEmpty` | reviews.py:65 | a line strips to nothing exactly when every character is whitespace |
| `Text.StripIdempotent` | reviews.py:65 | stripping an already stripped string changes nothing |
| `Text.Contains` | reviews.py:86 | `sub in s` holds exactly when `sub` occurs at some position of `s` (the empty string occurs everywhere) |
| `Urls.NonBlankStripped` | reviews.py:65 | the comprehension yields at most one URL per line, each non-empty and without surrounding whitespace |
| `Urls.LoadUrls` | reviews.py:62-70 | a missing file gives no URLs; a file that cannot be read raises, since only a missing file is caught; otherwise every URL is a non-empty stripped string and there are no more URLs than lines |
| `Urls.NonBlankStrippedAppend` | reviews.py:65 | the URLs of consecutive stretches of the file come out concatenated, so file order is kept |
| `Urls.NonBlankStrippedLine` | reviews.py:65 | a single line contributes its stripped text exactly when that text is not empty |
| `Urls.NonBlankStrippedMember` | reviews.py:65 | a string is a URL exactly when it is the non-empty strip of some line |
| `Cookies.Applicable` | reviews.py:85-89 | every applied cookie was stored and passes the domain test |
| `Cookies.ApplyCookies` | reviews.py:85-89 | the loop adds exactly the cookies the filter keeps, in stored order |
| `Cookies.LoadCookies` | reviews.py:78-99 | the run stops when the cookie file is missing or corrupt, or when the page load before the cookies are added raises (nothing catches it); otherwise the filtered cookies are applied |
| `Cookies.ApplicableAppend` | reviews.py:85-89 | filtering keeps the stored order: the cookies kept from two consecutive stretches come out concatenated |
| `Cookies.ApplicableMember` | reviews.py:86-89 | a cookie is applied exactly when it is stored and has no domain or its domain is a substring of the URL; so a cookie without a domain is always applied |
| `Cookies.ForeignDomainSkipped` | reviews.py:86-88 | a cookie for "other.com" is not applied to the URL "https://site.com" |
| `ViewMore.OpenPanel` | reviews.py:130-138 | between 1 and 3 attempts are made; no attempt follows the first successful click; without a click all 3 are made and the fetch still goes on; one pause follows each attempt that raised |
| `Convergence.ScrollToConverge` | reviews.py:151-166 | the loop stops at the unique poll where the stagnation counter first reaches 3, with `prev_count` the maximum seen and one scroll per new maximum; it runs out of polls exactly when the counter never reaches 3 |
| `Convergence.RunningMaxIsMaximum` | reviews.py:151-158 | `prev_count` is at least every count polled so far, and is 0 or one of them |
| `Convergence.StreakReachesLimit` | reviews.py:157-166 | the counter reaches 3 exactly at the third consecutive poll that is not above `prev_count` |
| `Convergence.Poll` | reviews.py:154-166 | one poll: a larger count becomes `prev_count`, adds a scroll and resets the counter; any other count increments the counter |
| `Convergence.ScrollsBounded` | reviews.py:157-161 | there are never more scrolls than polls, nor more than the final `prev_count`, since each scroll follows a strict increase |
| `Convergence.StopUnique` | reviews.py:153-166 | the stopping poll is determined by the counts alone |
| `Convergence.StreakResets` | reviews.py:157-166 | counts 5, 8, 8, 8, 12, 12, 12, 12 stop at the last poll with 12 items after 3 scrolls |
| `Convergence.EqualCountsNeedFourPolls` | reviews.py:151-166 | counts 5, 5, 5 do not stop the loop; 5, 5, 5, 5 stop it at the fourth poll |
| `Convergence.LastPollNotLargest` | reviews.py:154-169 | the stopping poll can show fewer items than `prev_count` (5, 3, 3, 3). That the items of this poll, not the largest list, are the ones extracted is stated by the ensures of `Fetch.FetchReviews` |
| `Convergence.EmptyPollsStopAtThird` | reviews.py:157-166 | the test is strict, so counts 0, 0, 0 stop at the third poll with `prev_count` 0 and no scroll |
| `Extraction.ParseElement` | reviews.py:170-194 | an item gives a record exactly when it passes both filters and the pool is non-empty. The record holds the stripped text, the star count, the given product id, an empty order id, the drawn date, a name and email from one pool entry, and the first thumbnail or "". Raising items, and passing items with an empty pool, are failures |
| `Extraction.CollectReviews` | reviews.py:169-194 | the loop appends exactly the records `Collected` describes and reports exactly the items `FailureLog` describes |
| `Extraction.SourcesOrdered` | reviews.py:169-192 | the positions of the items that give records increase strictly, so records keep item order |
| `Extraction.SourcesCount` | reviews.py:169-192 | there is exactly one record per item that gives one |
| `Extraction.SourcesMember` | reviews.py:171-177 | an item gives a record exactly when its stripped text has at least 20 characters and it has at least 3 stars (pool non-empty); a raising item never does |
| `Extraction.SourcesRecords` | reviews.py:169-192 | record k is built from its own item with that item's own draw, so a raising item leaves every other record unchanged |
| `Extraction.CollectedRecords` | reviews.py:171-191 | every record has content of at least 20 characters, a score of at least 3, the given product id, an empty order id, and a name/email pair from a single pool entry |
| `Extraction.SingleIdentity` | reviews.py:182-189 | with a one-entry pool every record carries that entry's name and email |
| `Extraction.FailureLogMember` | reviews.py:193-194 | item number x is reported exactly when reading it raised, or it passed the filters with an empty pool |
| `Output.Save` | reviews.py:206-213 | no records leave the file unchanged; otherwise the file exists afterwards and its old rows stay in place |
| `Output.SaveContents` | reviews.py:206-210 | the records follow the old records in order, after one header exactly when the file did not exist |
| `Output.ProcessUrls` | reviews.py:202-213 | the loop saves the records of each URL in turn, as `SaveAll` describes, up to the first visit that raises; that exception ends the run (`aborted`) and no later URL is visited |
| `Output.ProcessEachUrl` | reviews.py:202-213 | the loop with a raising visit confined to its URL: the file ends in the state `SaveAll` gives for the records of every visit |
| `Output.EachUrlRecords` | reviews.py:203-210 | with raising visits confined, the records of every visit that returned follow the old records, in URL order; the run as written saves a prefix of these records |
| `Output.LaterUrlsLost` | reviews.py:203-205 | as written, a first page that fails to load leaves the file unchanged even though the second URL returned records, which the confined loop saves |
| `Output.SaveAllNothing` | reviews.py:206-213 | a run in which no URL gave records leaves the file unchanged |
| `Output.SaveAllGrows` | reviews.py:206-210 | over a run the old rows stay in place, and the file exists afterwards exactly when it existed before or some URL gave records |
| `Output.SaveAllRecords` | reviews.py:203-210 | the records of all URLs follow the old records, in URL order |
| `Output.SaveAllHeader` | reviews.py:207-209 | a run adds one header, as the first new row, exactly when the file did not exist and some URL gave records; otherwise it adds none |
| `Output.HeaderWrittenOnce` | reviews.py:207-209 | a fresh file gets a header first; a second append adds no second header |
| `Fetch.FetchReviews` | reviews.py:121-199 | a page that fails to load raises to the caller (`Aborted`), exactly then. A panel or first item that never appears gives no records and a screenshot. Otherwise the fetch hangs exactly when the counts never settle; when they settle, the records and failure reports come from the items of the stopping poll. The "View More" outcome changes nothing |

## Left out

- Browser start-up, configuration loading and the entry point (`init_driver`, `load_config`, `main`): process set-up with no logic to verify.
- `cookies.py`: an interactive session that waits for the user, deletes a file and pickles cookies; cookies.py is not part of this model.
- The browser itself: page loads, waits, clicks, scrolling scripts and screenshots are represented only by what they return (`Page`, `Probe`, the poll sequences) or by a flag (`screenshot`).
- `time.sleep` pauses: timing only. `ViewMore.OpenPanel` counts the pauses after raised attempts but does not model their length.
- `generate_random_date` and `random.choice`: the date is an opaque string and the pool index is `pick` modulo the pool size, both taken from an injected `Draw` per item. The 60-day window is not modelled.
- Loading the name/email pool and writing the CSV (pandas): the pool is a sequence of `Identity` and the file is the abstract `Sink`. CSV encoding and quoting are not modelled.
- The exit paths of `load_cookies` (`driver.quit()`, `exit(1)`, and the message at reviews.py:97 that names an undefined variable): modelled only as `None`, meaning the run stops.
- Extraction.ParseElement: an item that raises is modelled as raising before any filter. The real item may raise after its text check, so a short-text item that would also raise is modelled as reporting a failure although the program drops it silently. Records are the same either way. Only the failure report differs.
- Fetch.FetchReviews: an exception raised while polling or scrolling, after the panel has loaded, is not modelled. The program would catch it like a missing panel.
- Output.ProcessUrls: takes what each URL's fetch did as input (`Returned` for a `Finished` fetch, `Escaped` for an `Aborted` one) rather than calling `Fetch.FetchReviews` itself, so a hanging fetch is not followed through the URL loop. A failing write is not modelled either: `to_csv` (reviews.py:208-210) can raise, for instance when the `output/` directory does not exist, and that exception escapes `process_urls` like a failed page load, losing that URL's records and every later URL. The model's `Save` always succeeds, so `aborted` names only escaped visits.
- Cookies.ApplyCookies: assumes the browser accepts every cookie that passes the domain test. An `add_cookie` call that raises (reviews.py:89) is not caught by the handler at reviews.py:92, so it would end the run. The model does not include that path.

## Findings

| source | as written | input that shows it | evidently intended | confidence | as-written member | corrected member |
|---|---|---|---|---|---|---|
| reviews.py:123 | `driver.get(url)` runs before the `try` of `fetch_reviews`, and `process_urls` has no handler, so a page that fails to load ends the whole run | a first URL whose page load raises, then a second URL that returns records: the second URL is never visited and its records are not saved (`Output.LaterUrlsLost`) | a failure on one URL is confined to that URL, as every other failure in `fetch_reviews` is, and the remaining URLs are still processed (`Output.EachUrlRecords`) | medium, not executed | `Output.ProcessUrls` | `Output.ProcessEachUrl` |
