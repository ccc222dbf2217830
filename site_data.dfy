/** The `sitedata` records of the sitemap usage analyzer and what one fetched
    page does to them (js-inject/wp-check-link-pages.js). Fetching and parsing
    are abstracted: a fetch is the href that was requested together with its
    outcome, and a successful outcome already carries the resolved hrefs of
    the anchors of the fetched document. */
module SiteData {
  import opened JsText
  import opened MapSum

  datatype Option<T> = None | Some(value: T)

  /** The `status` string: 'OK' or 'Error'. */
  datatype Status = OK | Error

  /** The `statusCode` field: the numeric HTTP status, or the message of the
      exception that aborted the fetch. */
  datatype StatusCode = Http(code: int) | Message(text: string)

  /** One entry of `sitedata`. `status` and `statusCode` are absent until
      a fetch of exactly this url is committed. */
  datatype PageRecord = PageRecord(
    url: string,
    usedCount: nat,
    usedByPages: map<string, nat>,
    status: Option<Status>,
    statusCode: Option<StatusCode>)

  /** What a fetch of one link yields: a response with its status and, when
      the response is ok, the hrefs of the fetched document's anchors; or the
      message of an exception thrown by `fetch` or `response.text()`. */
  datatype Outcome = Response(code: int, hrefs: seq<string>) | Thrown(message: string)

  /** One anchor of the displayed page together with what fetching it yielded. */
  datatype Fetch = Fetch(href: string, outcome: Outcome)

  /** `response.ok`: the status is in the range 200 to 299. */
  predicate IsOk(code: int)
  {
    200 <= code <= 299
  }

  /** Sitemap entries whose url contains this segment are not registered. */
  const ExcludedSegment: string := "wp-content"

  function NewRecord(url: string): PageRecord
  {
    PageRecord(url, 0, map[], None, None)
  }

  /** The record invariant: every referrer entry is at least 1, `usedCount`
      is the sum of the entries, and a status is always paired with a code. */
  ghost predicate Consistent(r: PageRecord)
  {
    && (forall p :: p in r.usedByPages ==> r.usedByPages[p] >= 1)
    && r.usedCount == Sum(r.usedByPages)
    && r.status.Some? == r.statusCode.Some?
  }

  ghost predicate AllConsistent(rs: seq<PageRecord>)
  {
    forall i :: 0 <= i < |rs| ==> Consistent(rs[i])
  }

  /** Same number of records, with the same urls in the same places. */
  predicate SameUrls(rs: seq<PageRecord>, ts: seq<PageRecord>)
  {
    |rs| == |ts| && forall i :: 0 <= i < |rs| ==> rs[i].url == ts[i].url
  }

  /** Record `i` is the one `find`/`findIndex` return for `url`. */
  predicate IsFirstMatch(rs: seq<PageRecord>, i: int, url: string)
  {
    0 <= i < |rs| && rs[i].url == url && forall j :: 0 <= j < i ==> rs[j].url != url
  }

  /** An earlier record carries the same url, so record `i` is never found. */
  predicate Shadowed(rs: seq<PageRecord>, i: int)
  {
    0 <= i < |rs| && exists j :: 0 <= j < i && rs[j].url == rs[i].url
  }

  // ---------------------------------------------------------------- seeding

  /** The records seeded from the trimmed `<loc>` texts, in document order. */
  function Seeded(locs: seq<string>): (rs: seq<PageRecord>)
    ensures |rs| <= |locs|
    ensures forall i :: 0 <= i < |rs| ==>
              rs[i] == NewRecord(rs[i].url) && !Contains(rs[i].url, ExcludedSegment)
  {
    if locs == [] then []
    else
      var url := Trim(locs[|locs| - 1]);
      Seeded(locs[..|locs| - 1]) + (if Contains(url, ExcludedSegment) then [] else [NewRecord(url)])
  }

  /** Seeding is done loc by loc: the records of a concatenation are the
      records of each part, in order. */
  lemma {:induction false} SeededAppend(a: seq<string>, b: seq<string>)
    ensures Seeded(a + b) == Seeded(a) + Seeded(b)
    decreases |b|
  {
    if b == [] {
      assert a + b == a;
    } else {
      var b' := b[..|b| - 1];
      assert (a + b)[..|a + b| - 1] == a + b';
      assert (a + b)[|a + b| - 1] == b[|b| - 1];
      SeededAppend(a, b');
    }
  }

  /** Some record carries exactly the url `u`. */
  predicate Registered(rs: seq<PageRecord>, u: string)
  {
    exists i :: 0 <= i < |rs| && rs[i].url == u
  }

  /** `u` is the trimmed text of some loc and lies outside the excluded segment. */
  predicate Declared(locs: seq<string>, u: string)
  {
    !Contains(u, ExcludedSegment) && exists k :: 0 <= k < |locs| && Trim(locs[k]) == u
  }

  /** A url is registered by seeding exactly when it is declared. */
  lemma {:induction false} SeededUrls(locs: seq<string>, u: string)
    ensures Registered(Seeded(locs), u) <==> Declared(locs, u)
    decreases |locs|
  {
    if locs != [] {
      var n := |locs| - 1;
      SeededUrls(locs[..n], u);
      RegisteredStep(locs, u);
      DeclaredStep(locs, u);
    }
  }

  lemma RegisteredStep(locs: seq<string>, u: string)
    requires locs != []
    ensures Registered(Seeded(locs), u) <==>
              || Registered(Seeded(locs[..|locs| - 1]), u)
              || (Trim(locs[|locs| - 1]) == u && !Contains(u, ExcludedSegment))
  {
    var n := |locs| - 1;
    var kept := Seeded(locs[..n]);
    var last := Trim(locs[n]);
    var rs := Seeded(locs);
    assert rs == kept + (if Contains(last, ExcludedSegment) then [] else [NewRecord(last)]);
    if Registered(rs, u) {
      var i :| 0 <= i < |rs| && rs[i].url == u;
      if i < |kept| { assert kept[i].url == u; }
    }
    if Registered(kept, u) {
      var i :| 0 <= i < |kept| && kept[i].url == u;
      assert rs[i].url == u;
    }
    if last == u && !Contains(u, ExcludedSegment) { assert rs[|rs| - 1].url == u; }
  }

  lemma DeclaredStep(locs: seq<string>, u: string)
    requires locs != []
    ensures Declared(locs, u) <==>
              || Declared(locs[..|locs| - 1], u)
              || (Trim(locs[|locs| - 1]) == u && !Contains(u, ExcludedSegment))
  {
    var n := |locs| - 1;
    var front := locs[..n];
    var excluded := Contains(u, ExcludedSegment);
    var inLocs := exists k :: 0 <= k < |locs| && Trim(locs[k]) == u;
    var inFront := exists k :: 0 <= k < n && Trim(front[k]) == u;
    assert Declared(locs, u) == (!excluded && inLocs);
    assert Declared(front, u) == (!excluded && inFront);
    assert inLocs <==> inFront || Trim(locs[n]) == u by {
      if inLocs {
        var k :| 0 <= k < |locs| && Trim(locs[k]) == u;
        if k < n { assert front[k] == locs[k]; }
      }
      if inFront {
        var k :| 0 <= k < n && Trim(front[k]) == u;
        assert front[k] == locs[k];
      }
    }
  }

  /** Freshly seeded records satisfy the record invariant. */
  lemma SeededConsistent(locs: seq<string>)
    ensures AllConsistent(Seeded(locs))
  {
    var rs := Seeded(locs);
    forall i | 0 <= i < |rs| ensures Consistent(rs[i]) {
      assert rs[i].usedByPages == map[];
    }
  }

  // ---------------------------------------------------------------- lookup

  /** `sitedata.findIndex(item => item.url === url)`, with None for -1. */
  function FindFirst(rs: seq<PageRecord>, url: string): (r: Option<nat>)
    ensures r.Some? ==> IsFirstMatch(rs, r.value, url)
    ensures r.None? ==> forall i :: 0 <= i < |rs| ==> rs[i].url != url
  {
    if |rs| == 0 then None
    else if rs[0].url == url then Some(0)
    else
      match FindFirst(rs[1..], url)
      case None => None
      case Some(i) => Some(i + 1)
  }

  /** Lookups only see urls, so registries with the same urls agree on them. */
  lemma FindFirstSameUrls(rs: seq<PageRecord>, ts: seq<PageRecord>, url: string)
    requires SameUrls(rs, ts)
    ensures FindFirst(rs, url) == FindFirst(ts, url)
  {
    match FindFirst(rs, url)
    case None =>
    case Some(i) =>
      assert IsFirstMatch(ts, i, url);
  }

  // ---------------------------------------------------------------- commit

  /** The record one more time linked from `referrer`: one more use, and
      one more use from `referrer` (an absent entry starts at 1). */
  ghost predicate CreditedOnce(before: PageRecord, after: PageRecord, referrer: string)
  {
    && after.url == before.url
    && after.status == before.status
    && after.statusCode == before.statusCode
    && after.usedCount == before.usedCount + 1
    && after.usedByPages.Keys == before.usedByPages.Keys + {referrer}
    && Get(after.usedByPages, referrer) == Get(before.usedByPages, referrer) + 1
    && forall p :: p != referrer ==> Get(after.usedByPages, p) == Get(before.usedByPages, p)
  }

  /** `usedCount += 1` and the referrer's entry bumped, or started at 1. */
  function Credit(r: PageRecord, referrer: string): (c: PageRecord)
    ensures CreditedOnce(r, c, referrer)
  {
    r.(usedCount := r.usedCount + 1,
       usedByPages := r.usedByPages[referrer := Get(r.usedByPages, referrer) + 1])
  }

  lemma CreditConsistent(r: PageRecord, referrer: string)
    requires Consistent(r)
    ensures Consistent(Credit(r, referrer))
  {
    SumIncrement(r.usedByPages, referrer);
  }

  /** One anchor `href` of a page fetched for `referrer`: the first record
      whose url is exactly `href` is credited once; every other record is
      untouched, and an href no record carries changes nothing. */
  function CreditLink(rs: seq<PageRecord>, href: string, referrer: string): (r: seq<PageRecord>)
    ensures SameUrls(rs, r)
    ensures forall i :: 0 <= i < |rs| ==>
              if IsFirstMatch(rs, i, href) then CreditedOnce(rs[i], r[i], referrer) else r[i] == rs[i]
  {
    match FindFirst(rs, href)
    case None => rs
    case Some(i) => rs[i := Credit(rs[i], referrer)]
  }

  /** The anchors of one fetched page, credited in document order. */
  function CreditLinks(rs: seq<PageRecord>, hrefs: seq<string>, referrer: string): (r: seq<PageRecord>)
    ensures SameUrls(rs, r)
    ensures forall i :: 0 <= i < |rs| ==> r[i].status == rs[i].status && r[i].statusCode == rs[i].statusCode
  {
    if hrefs == [] then rs
    else CreditLink(CreditLinks(rs, hrefs[..|hrefs| - 1], referrer), hrefs[|hrefs| - 1], referrer)
  }

  /** Writes `status` and `statusCode` of the first record whose url is
      exactly `href`, if there is one. */
  function SetStatus(rs: seq<PageRecord>, href: string, s: Status, c: StatusCode): (r: seq<PageRecord>)
    ensures SameUrls(rs, r)
    ensures forall i :: 0 <= i < |rs| ==>
              if IsFirstMatch(rs, i, href)
              then r[i] == rs[i].(status := Some(s), statusCode := Some(c))
              else r[i] == rs[i]
  {
    match FindFirst(rs, href)
    case None => rs
    case Some(i) => rs[i := rs[i].(status := Some(s), statusCode := Some(c))]
  }

  /** The link counting of one fetch callback (lines 49-66): the anchors of
      an ok page are credited, anything else counts nothing. It never
      touches a status. */
  function CreditFetch(rs: seq<PageRecord>, f: Fetch): (r: seq<PageRecord>)
    ensures SameUrls(rs, r)
    ensures forall i :: 0 <= i < |rs| ==> r[i].status == rs[i].status && r[i].statusCode == rs[i].statusCode
  {
    match f.outcome
    case Response(code, hrefs) => if IsOk(code) then CreditLinks(rs, hrefs, f.href) else rs
    case Thrown(_) => rs
  }

  /** The status a commit writes for its fetched href. */
  function WrittenStatus(o: Outcome): Status
  {
    match o
    case Response(code, _) => if IsOk(code) then OK else Error
    case Thrown(_) => Error
  }

  /** The code a commit writes for its fetched href. */
  function WrittenCode(o: Outcome): StatusCode
  {
    match o
    case Response(code, _) => Http(code)
    case Thrown(message) => Message(message)
  }

  /** The synchronous body of one fetch callback in `processBatch`: link
      counting on an ok response, then the status of the fetched page. */
  function Commit(rs: seq<PageRecord>, f: Fetch): (r: seq<PageRecord>)
    ensures SameUrls(rs, r)
  {
    SetStatus(CreditFetch(rs, f), f.href, WrittenStatus(f.outcome), WrittenCode(f.outcome))
  }

  /** Commits applied one after another, in the given order. */
  function CommitAll(rs: seq<PageRecord>, fs: seq<Fetch>): (r: seq<PageRecord>)
    ensures SameUrls(rs, r)
  {
    if fs == [] then rs
    else Commit(CommitAll(rs, fs[..|fs| - 1]), fs[|fs| - 1])
  }

  // ---------------------------------------------------------------- properties

  /** Crediting keeps every record's `usedCount` equal to the sum of its
      per-referrer counts. */
  lemma {:induction false} CreditLinksConsistent(rs: seq<PageRecord>, hrefs: seq<string>, referrer: string)
    requires AllConsistent(rs)
    ensures AllConsistent(CreditLinks(rs, hrefs, referrer))
    decreases |hrefs|
  {
    if hrefs != [] {
      var mid := CreditLinks(rs, hrefs[..|hrefs| - 1], referrer);
      CreditLinksConsistent(rs, hrefs[..|hrefs| - 1], referrer);
      match FindFirst(mid, hrefs[|hrefs| - 1])
      case None =>
      case Some(i) => CreditConsistent(mid[i], referrer);
    }
  }

  /** A commit keeps the record invariant of every record. */
  lemma CommitConsistent(rs: seq<PageRecord>, f: Fetch)
    requires AllConsistent(rs)
    ensures AllConsistent(Commit(rs, f))
  {
    match f.outcome
    case Response(code, hrefs) =>
      if IsOk(code) { CreditLinksConsistent(rs, hrefs, f.href); }
    case Thrown(_) =>
  }

  lemma {:induction false} CommitAllConsistent(rs: seq<PageRecord>, fs: seq<Fetch>)
    requires AllConsistent(rs)
    ensures AllConsistent(CommitAll(rs, fs))
    decreases |fs|
  {
    if fs != [] {
      CommitAllConsistent(rs, fs[..|fs| - 1]);
      CommitConsistent(CommitAll(rs, fs[..|fs| - 1]), fs[|fs| - 1]);
    }
  }

  /** How often `u` occurs among `hrefs`. */
  function Occurrences(hrefs: seq<string>, u: string): (n: nat)
    ensures n <= |hrefs|
  {
    if hrefs == [] then 0
    else Occurrences(hrefs[..|hrefs| - 1], u) + (if hrefs[|hrefs| - 1] == u then 1 else 0)
  }

  /** The per-record total of one fetched page's anchors: a record gains one
      use, attributed to the referrer, per anchor whose href is exactly its
      url, unless an earlier record has the same url; nothing else changes. */
  lemma {:induction false} CreditLinksCount(rs: seq<PageRecord>, hrefs: seq<string>, referrer: string, i: nat)
    requires i < |rs|
    ensures var r := CreditLinks(rs, hrefs, referrer);
            var n := if Shadowed(rs, i) then 0 else Occurrences(hrefs, rs[i].url);
            && r[i].usedCount == rs[i].usedCount + n
            && r[i].usedByPages.Keys == rs[i].usedByPages.Keys + (if n > 0 then {referrer} else {})
            && Get(r[i].usedByPages, referrer) == Get(rs[i].usedByPages, referrer) + n
            && (forall p :: p != referrer ==> Get(r[i].usedByPages, p) == Get(rs[i].usedByPages, p))
            && (n == 0 ==> r[i] == rs[i])
    decreases |hrefs|
  {
    if hrefs != [] {
      var front := hrefs[..|hrefs| - 1];
      var h := hrefs[|hrefs| - 1];
      CreditLinksCount(rs, front, referrer, i);
      var mid := CreditLinks(rs, front, referrer);
      assert Shadowed(mid, i) == Shadowed(rs, i);
      assert IsFirstMatch(mid, i, h) <==> !Shadowed(rs, i) && h == rs[i].url;
    }
  }

  /** A response that is not ok, or an exception, counts no links at all,
      whatever the page would have contained. */
  lemma NotOkCountsNothing(rs: seq<PageRecord>, f: Fetch)
    requires !(f.outcome.Response? && IsOk(f.outcome.code))
    ensures var r := Commit(rs, f);
            forall i :: 0 <= i < |rs| ==>
              r[i].usedCount == rs[i].usedCount && r[i].usedByPages == rs[i].usedByPages
  {
  }

  /** The status a commit writes, on the first record whose url is exactly
      the fetched href: 'OK' or 'Error' with the HTTP status for a response,
      'Error' with the message for an exception. Every other record keeps
      its status, so no status changes when no record carries the href. */
  lemma CommitStatus(rs: seq<PageRecord>, f: Fetch, i: nat)
    requires i < |rs|
    ensures var r := Commit(rs, f);
            if IsFirstMatch(rs, i, f.href) then
              match f.outcome
              case Response(code, _) =>
                r[i].status == Some(if IsOk(code) then OK else Error) && r[i].statusCode == Some(Http(code))
              case Thrown(message) =>
                r[i].status == Some(Error) && r[i].statusCode == Some(Message(message))
            else r[i].status == rs[i].status && r[i].statusCode == rs[i].statusCode
  {
    assert IsFirstMatch(CreditFetch(rs, f), i, f.href) == IsFirstMatch(rs, i, f.href);
  }

  /** A record preceded by another with the same url is never credited and
      never given a status, whatever is committed. */
  lemma {:induction false} ShadowedUntouched(rs: seq<PageRecord>, fs: seq<Fetch>, i: nat)
    requires Shadowed(rs, i)
    ensures CommitAll(rs, fs)[i] == rs[i]
    decreases |fs|
  {
    if fs != [] {
      ShadowedUntouched(rs, fs[..|fs| - 1], i);
      var mid := CommitAll(rs, fs[..|fs| - 1]);
      var f := fs[|fs| - 1];
      assert Shadowed(mid, i);
      match f.outcome
      case Response(code, hrefs) =>
        if IsOk(code) {
          CreditLinksCount(mid, hrefs, f.href, i);
        }
      case Thrown(_) =>
    }
  }

  /** Committing a list is committing its parts one after the other. */
  lemma {:induction false} CommitAllAppend(rs: seq<PageRecord>, a: seq<Fetch>, b: seq<Fetch>)
    ensures CommitAll(rs, a + b) == CommitAll(CommitAll(rs, a), b)
    decreases |b|
  {
    if b == [] {
      assert a + b == a;
    } else {
      assert (a + b)[..|a + b| - 1] == a + b[..|b| - 1];
      assert (a + b)[|a + b| - 1] == b[|b| - 1];
      CommitAllAppend(rs, a, b[..|b| - 1]);
    }
  }
}
