# Sitemap usage analyzer, modelled in Dafny

`runSitemapUsageAnalyzer` (js-inject/wp-check-link-pages.js) is a browser
script for a WordPress site. It reads the `<loc>` entries of
`/page-sitemap.xml` into an array `sitedata` of page records. Each record has
a `url`, a `usedCount` and a `usedByPages` object. The script then fetches
every anchor of the page currently displayed, five at a time. For each fetched
page that answers ok, it goes through that page's anchors. For each anchor, it
credits the first record whose url is exactly that anchor's href, once per
anchor. It also writes a `status` and a `statusCode` on the first record whose
url is exactly the fetched href. Finally it shows four counts: total, used, not linked
and with errors.

This project models that bookkeeping. The network and the parsers are turned
into inputs:

- the sitemap is its `<loc>` texts, or unavailable;
- each anchor of the displayed page comes with the outcome of fetching it:
  - a response carrying its status and, when the status is ok, the resolved
    hrefs of the fetched page;
  - or the message of an exception;
- each batch comes with the order in which its fetches complete.

What is proved:

- **Seeding.** It keeps exactly the trimmed loc texts that do not contain
  `wp-content`, in order, each as a fresh record.
- **Invariant.** Every record keeps `usedCount` equal to the sum of its
  `usedByPages` counts. Each of those counts is at least 1. A status always
  comes with a code.
- **One fetch.**
  - An ok page credits the first record carrying exactly each anchor's href,
    once per anchor, and credits nothing else.
  - A page that is not ok, or an exception, counts no links.
  - The status goes to the first record whose url is exactly the fetched href,
    and to no other.
  - No record is ever added or removed, and no url changes.
- **Batching.** The batches start at 0, 5, 10, … and hold one to five anchors
  each. Laid end to end, they give back the anchor list.
- **Order.**
  - Inside a batch the fetches complete in any order. The link counts never
    depend on that order.
  - The statuses do not depend on it either, unless a batch fetches the same
    href twice.
  - So the "used" and "not linked" counts equal those of a sequential crawl in
    document order.
- **Summary.**
  - used + not linked = total.
  - The error count includes every page that never got a status.
  - Right after seeding, every page counts as unused and as an error.

Files:

| file | module | contents |
|---|---|---|
| `text.dfy` | `JsText` | `String.prototype.trim` and `includes` |
| `map_sum.dfy` | `MapSum` | the sum of a `usedByPages` map and counter reads |
| `site_data.dfy` | `SiteData` | records, seeding, lookup, one commit, its properties |
| `commit_order.dfy` | `CommitOrder` | what the completion order of fetches can change |
| `batching.dfy` | `Batching` | cutting the anchor list into batches of five |
| `summary.dfy` | `Summary` | the four counts of the summary tab |
| `analyzer.dfy` | `UsageAnalyzer` | the `sitedata` array as a class; seeding, crawl and run as methods |

## Model

| member | source | states |
|---|---|---|
| JsText.TrimStartSpec | js-inject/wp-check-link-pages.js:20 | trimming the start keeps a suffix that does not start with whitespace, and drops only whitespace |
| JsText.TrimEndSpec | js-inject/wp-check-link-pages.js:20 | trimming the end keeps a prefix that does not end with whitespace, and drops only whitespace |
| JsText.TrimSpec | js-inject/wp-check-link-pages.js:20 | `trim()` keeps an infix with only whitespace around it, whose first and last characters are not whitespace |
| JsText.Trim | js-inject/wp-check-link-pages.js:20 | `s.trim()`, the leading then the trailing whitespace dropped; TrimSpec states what it keeps and drops |
| JsText.ContainsSpec | js-inject/wp-check-link-pages.js:21 | `includes` holds exactly when the segment occurs at some position |
| JsText.Contains | js-inject/wp-check-link-pages.js:21 | `s.includes(sub)`; ContainsSpec states it holds exactly when `sub` occurs at some position |
| MapSum.SumIncrement | js-inject/wp-check-link-pages.js:59-64 | bumping one referrer entry, or creating it at 1, raises the sum of the entries by exactly one |
| MapSum.SumZeroIffEmpty | js-inject/wp-check-link-pages.js:179 | with positive entries, the sum is zero exactly when the object has no keys |
| SiteData.Seeded | js-inject/wp-check-link-pages.js:18-24 | seeding yields at most one record per loc, each with zero counters, no status and a url that does not contain `wp-content` |
| SiteData.SeededAppend | js-inject/wp-check-link-pages.js:19-24 | seeding goes loc by loc in document order: the records of a concatenation are the records of each part, in order |
| SiteData.SeededUrls | js-inject/wp-check-link-pages.js:18-24 | a url gets a record exactly when it is the trimmed text of some loc and does not contain `wp-content` |
| SiteData.SeededConsistent | js-inject/wp-check-link-pages.js:22 | fresh records satisfy the record invariant (count = sum of referrer counts) |
| SiteData.FindFirst | js-inject/wp-check-link-pages.js:69-70 | `findIndex` with `===`: the result is the first record carrying exactly the url, or none when no record carries it |
| SiteData.IsOk | js-inject/wp-check-link-pages.js:49 | `response.ok`: a status from 200 to 299; NotOkCountsNothing and CommitStatus state what each side of it does |
| SiteData.Credit | js-inject/wp-check-link-pages.js:59-64 | `usedCount += 1` and the referrer's entry bumped or started at 1: the record is credited once (one more use, one more from the referrer, all other entries, the url and the status unchanged) |
| SiteData.CreditConsistent | js-inject/wp-check-link-pages.js:59-64 | one credit keeps `usedCount` equal to the sum of the `usedByPages` counts |
| SiteData.CreditLink | js-inject/wp-check-link-pages.js:56-65 | one anchor credits the first record with exactly its url once (one more use, the referrer's entry one higher or new at 1, all other entries and the status unchanged); every other record is untouched |
| SiteData.CreditLinks | js-inject/wp-check-link-pages.js:55-66 | counting a page's anchors keeps the number of records and their urls, and changes no status |
| SiteData.SetStatus | js-inject/wp-check-link-pages.js:69-73 | the status and code go to the first record whose url is exactly the fetched href; every other record is unchanged |
| SiteData.CreditFetch | js-inject/wp-check-link-pages.js:49-66 | the link counting of one fetch keeps the records and their urls and never touches a status; NotOkCountsNothing states that only an ok response counts |
| SiteData.Commit | js-inject/wp-check-link-pages.js:59-79 | a commit never adds or removes a record and never changes a url |
| SiteData.CommitAll | js-inject/wp-check-link-pages.js:37-41 | any series of commits keeps the number of records fixed after seeding, and keeps their urls |
| SiteData.CreditLinksConsistent | js-inject/wp-check-link-pages.js:55-66 | counting a page's anchors preserves the record invariant of every record |
| SiteData.CommitConsistent | js-inject/wp-check-link-pages.js:44-81 | a commit, on every outcome, preserves the record invariant |
| SiteData.CommitAllConsistent | js-inject/wp-check-link-pages.js:37-41 | the invariant holds after any series of commits |
| SiteData.CreditLinksCount | js-inject/wp-check-link-pages.js:55-66 | a record gains exactly one use, attributed to the referrer, per anchor equal to its url, unless an earlier record has the same url; its other referrer counts are unchanged, and a record matching no anchor is unchanged |
| SiteData.NotOkCountsNothing | js-inject/wp-check-link-pages.js:49-67 | a response that is not ok, or an exception, changes no `usedCount` and no `usedByPages` |
| SiteData.CommitStatus | js-inject/wp-check-link-pages.js:69-80 | the first record with the fetched href gets 'OK'/'Error' and the HTTP status, or 'Error' and the exception message; no other record's status changes |
| SiteData.ShadowedUntouched | js-inject/wp-check-link-pages.js:57 | a record preceded by one with the same url is never credited and never given a status |
| SiteData.CommitAllAppend | js-inject/wp-check-link-pages.js:37-41 | committing a list is committing its parts one after the other |
| CommitOrder.TalliesCommitAll | js-inject/wp-check-link-pages.js:44-84 | the link counts after any commits are those of the link counting alone; status writes never affect them |
| CommitOrder.CreditCommutes | js-inject/wp-check-link-pages.js:59-64 | two credits of one record from two referrers give the same record in either order |
| CommitOrder.CreditLinkCommutes | js-inject/wp-check-link-pages.js:55-66 | two anchor credits give the same records in either order |
| CommitOrder.CreditFetchCommutes | js-inject/wp-check-link-pages.js:49-66 | the link counting of two fetched pages gives the same records in either order |
| CommitOrder.SetStatusCommutes | js-inject/wp-check-link-pages.js:69-80 | status writes for two different hrefs give the same records in either order |
| CommitOrder.CommitCommutes | js-inject/wp-check-link-pages.js:44-82 | two commits for different hrefs give the same records in either order |
| CommitOrder.CreditAllAnyOrder | js-inject/wp-check-link-pages.js:84 | whatever order the fetches complete in, the link counting gives the same records |
| CommitOrder.TalliesAnyOrder | js-inject/wp-check-link-pages.js:84 | the link counts after committing a list do not depend on the order of its commits |
| CommitOrder.CommitAllAnyOrder | js-inject/wp-check-link-pages.js:84 | when no href is fetched twice, the records, statuses included, do not depend on the completion order |
| Batching.Batches | js-inject/wp-check-link-pages.js:37-38 | every batch holds between one and five anchors |
| Batching.BatchesRemain | js-inject/wp-check-link-pages.js:37 | batch k exists exactly when k * 5 is below the number of anchors (the loop test) |
| Batching.BatchAt | js-inject/wp-check-link-pages.js:38 | batch k is `links.slice(5k, 5k + 5)`, cut at the end of the list |
| Batching.FlattenBatches | js-inject/wp-check-link-pages.js:37-38 | the batches laid end to end are the anchor list, in order |
| Batching.FlattenRearranged | js-inject/wp-check-link-pages.js:84 | rearranging inside each batch rearranges the whole list |
| Summary.PagesUsed | js-inject/wp-check-link-pages.js:165 | `filter(d => d.usedCount > 0).length`, at most the total; UsedOrNotLinked sums it with PagesNotLinked to the total |
| Summary.PagesNotLinked | js-inject/wp-check-link-pages.js:166 | `filter(d => d.usedCount === 0).length`, at most the total; UsedOrNotLinked sums it with PagesUsed to the total |
| Summary.PagesWithErrors | js-inject/wp-check-link-pages.js:167 | `filter(d => d.status !== 'OK').length`, at most the total; ErrorsIncludeUnchecked splits it into the 'Error' pages and the pages with no status |
| Summary.UsedOrNotLinked | js-inject/wp-check-link-pages.js:165-166 | "used" plus "not linked" equals the total: every page is exactly one of the two |
| Summary.ErrorsIncludeUnchecked | js-inject/wp-check-link-pages.js:167 | the error count is the failed pages plus the pages that never got a status, that is the total minus the 'OK' pages |
| Summary.Summarize | js-inject/wp-check-link-pages.js:164-167 | the four counts: total is the number of records, used + not linked = total, errors = total minus the 'OK' pages |
| Summary.NotLinkedIffNoReferrer | js-inject/wp-check-link-pages.js:179-188 | under the invariant, a zero `usedCount` is the same as an empty `usedByPages`, so the counts agree with the "Not linked from any page" test of the details |
| Summary.SeededCounts | js-inject/wp-check-link-pages.js:164-167 | right after seeding, no page is used, every page is not linked, and every page counts as an error |
| UsageAnalyzer.SitemapUsageAnalyzer.Seed | js-inject/wp-check-link-pages.js:18-24 | the `forEach` push loop builds exactly the seeded records, which satisfy the invariant |
| UsageAnalyzer.SitemapUsageAnalyzer.CommitFetch | js-inject/wp-check-link-pages.js:45-81 | the in-place update of one fetch callback produces the commit of that fetch and keeps the invariant |
| UsageAnalyzer.SitemapUsageAnalyzer.ProcessBatch | js-inject/wp-check-link-pages.js:43-85 | a batch committed in its arrival order has the link counts of document order, and equals document order entirely when no href repeats in it |
| UsageAnalyzer.SitemapUsageAnalyzer.Crawl | js-inject/wp-check-link-pages.js:30-41 | the batch loop commits every batch in its arrival order; the link counts equal a crawl in document order, and so does everything when no batch repeats an href |
| UsageAnalyzer.CrawlOrder | js-inject/wp-check-link-pages.js:37-41 | batch-wise arrival orders give the link counts of document order, and the whole records too when no batch repeats an href |
| UsageAnalyzer.BatchwiseInOrder | js-inject/wp-check-link-pages.js:37-41 | rearranging batches with distinct hrefs, one after another, does not change the records |
| UsageAnalyzer.BatchTurn | js-inject/wp-check-link-pages.js:37-38 | each loop turn processes the batch at `i`, whose arrival order rearranges it, and the loop continues exactly while batches remain |
| UsageAnalyzer.CountsIgnoreStatus | js-inject/wp-check-link-pages.js:165-166 | the "used" and "not linked" counts read only the link counts |
| UsageAnalyzer.Run | js-inject/wp-check-link-pages.js:1-28 | no summary when the sitemap is unavailable; otherwise the counts of seeding and crawling; "used" and "not linked" equal those of a document-order crawl, and all four counts do when no batch repeats an href |

## Left out

- Fetching, `response.text()` and `DOMParser`: browser I/O and foreign parsers
  (lines 9-16, 46-53). The sitemap becomes a list of `<loc>` texts, or
  unavailable when the response is not ok, the XML does not parse or the fetch
  throws. A fetched page becomes a status with its hrefs, or an exception
  message.
- Every fetch is assumed to settle, as a response or as an exception. The
  script has no time-out. A `fetch` or `response.text()` that never settles
  keeps `Promise.all` (line 84) pending, so the batch loop never ends and the
  summary never opens. `Run` does not model that case: it promises a report
  whenever the sitemap loads.
- `response.ok` is modelled as a status from 200 to 299, as the Fetch standard
  defines it.
- Resolution of `link.href` and `doc_link.href` to absolute URLs by the
  browser. Hrefs are opaque strings compared with exact equality, as `===`
  does.
- `Promise.all` and the concurrency inside a batch (line 84). Each fetch's
  synchronous body runs atomically after its awaits. The order in which they
  complete is an input: one rearrangement per batch.
- The 200 ms delay between batches (lines 33, 35, 40). It only paces the
  requests.
- The summary window: `window.open`, the popup-blocked `alert`, the HTML
  template, its details list and `document.write` (lines 91-197). Only the four
  counts of lines 164-167 are modelled. The "not linked" test of the details
  (line 179) appears only as the lemma relating it to `usedCount`.
- The insertion order of `usedByPages` keys. It matters only for the order in
  which the details list prints them. `usedByPages` is a map.
- Prototype keys of the `usedByPages` object, such as `constructor` or
  `__proto__`. They cannot arise as a referrer. A bare name like these parses
  as a URL relative to the page, so `link.href` returns it resolved to an
  absolute URL.
- The keydown hotkey listener and `console` logging (lines 27, 87, 200-206).
  These are event wiring and diagnostics.
- JavaScript strings are UTF-16 code-unit sequences. They are modelled as
  sequences of Dafny `char`. `trim` and `includes` do not depend on the
  difference here.
