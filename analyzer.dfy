/** `runSitemapUsageAnalyzer` (js-inject/wp-check-link-pages.js) with its
    browser I/O turned into inputs: the `<loc>` texts of the sitemap (or its
    failure), the anchors of the displayed page each with what fetching it
    yields, and for each batch the order in which its fetches complete. */
module UsageAnalyzer {
  import opened JsText
  import opened SiteData
  import opened CommitOrder
  import opened Batching
  import opened Summary

  /** What loading `/page-sitemap.xml` gives: the texts of its `<loc>`
      elements, or nothing when the response is not ok, the XML does not
      parse, or the fetch throws. */
  datatype Sitemap = Loaded(locs: seq<string>) | Unavailable

  /** `arrivals[k]` is the order in which the fetches of batch k complete:
      a rearrangement of that batch. */
  predicate ArrivalsFit(links: seq<Fetch>, arrivals: seq<seq<Fetch>>)
  {
    && |arrivals| == |Batches(links)|
    && forall k :: 0 <= k < |arrivals| ==> multiset(arrivals[k]) == multiset(Batches(links)[k])
  }

  /** No batch fetches the same href twice. */
  predicate DistinctWithinBatches(links: seq<Fetch>)
  {
    forall k :: 0 <= k < |Batches(links)| ==> HrefsDistinct(Batches(links)[k])
  }

  /** The `sitedata` array and the steps that update it. */
  class SitemapUsageAnalyzer {
    var sitedata: seq<PageRecord>

    ghost predicate Valid()
      reads this
    {
      AllConsistent(sitedata)
    }

    /** The `forEach` over the `<loc>` elements: each trimmed text that does
        not contain the excluded segment is pushed as a fresh record. */
    constructor Seed(locs: seq<string>)
      ensures Valid()
      ensures sitedata == Seeded(locs)
    {
      var records := [];
      for k := 0 to |locs|
        invariant records == Seeded(locs[..k])
      {
        var url := Trim(locs[k]);
        if !Contains(url, ExcludedSegment) {
          records := records + [NewRecord(url)];
        }
        assert locs[..k + 1][..k] == locs[..k];
      }
      assert locs[..|locs|] == locs;
      SeededConsistent(locs);
      sitedata := records;
    }

    /** The body of one fetch callback in `processBatch`, after its awaits:
        on an ok response, each anchor of the fetched document credits the
        first record with exactly its url; then the first record whose url
        is the fetched href gets its status and code. */
    method CommitFetch(f: Fetch)
      requires Valid()
      modifies this
      ensures Valid()
      ensures sitedata == Commit(old(sitedata), f)
    {
      match f.outcome {
        case Response(code, hrefs) =>
          if IsOk(code) {
            for j := 0 to |hrefs|
              invariant sitedata == CreditLinks(old(sitedata), hrefs[..j], f.href)
            {
              var entry := FindFirst(sitedata, hrefs[j]);
              if entry.Some? {
                var i := entry.value;
                sitedata := sitedata[i := Credit(sitedata[i], f.href)];
              }
              assert hrefs[..j + 1][..j] == hrefs[..j];
            }
            assert hrefs[..|hrefs|] == hrefs;
          }
          var index := FindFirst(sitedata, f.href);
          if index.Some? {
            var i := index.value;
            var status := if IsOk(code) then OK else Error;
            sitedata := sitedata[i := sitedata[i].(status := Some(status), statusCode := Some(Http(code)))];
          }
        case Thrown(message) =>
          var index := FindFirst(sitedata, f.href);
          if index.Some? {
            var i := index.value;
            sitedata := sitedata[i := sitedata[i].(status := Some(Error), statusCode := Some(Message(message)))];
          }
      }
      CommitConsistent(old(sitedata), f);
    }

    /** `processBatch`: the batch's fetches run concurrently and each one
        commits, atomically, when it completes; `arrival` is that order. The
        link counts come out as if the batch were committed in document
        order, and so does everything else when no href repeats in it. */
    method ProcessBatch(batch: seq<Fetch>, arrival: seq<Fetch>)
      requires Valid()
      requires multiset(arrival) == multiset(batch)
      modifies this
      ensures Valid()
      ensures sitedata == CommitAll(old(sitedata), arrival)
      ensures Tallies(sitedata) == Tallies(CommitAll(old(sitedata), batch))
      ensures HrefsDistinct(batch) ==> sitedata == CommitAll(old(sitedata), batch)
    {
      for k := 0 to |arrival|
        invariant Valid()
        invariant sitedata == CommitAll(old(sitedata), arrival[..k])
      {
        CommitFetch(arrival[k]);
        assert arrival[..k + 1][..k] == arrival[..k];
      }
      assert arrival[..|arrival|] == arrival;
      TalliesAnyOrder(old(sitedata), arrival, batch);
      if HrefsDistinct(batch) {
        CommitAllAnyOrder(old(sitedata), arrival, batch);
      }
    }

    /** The loop of `check_actual_displayed_page`: the anchors are processed
        batch after batch, each batch finished before the next starts. The
        link counts are those of committing every anchor in document order,
        whatever the arrival order; the statuses too when no batch repeats
        an href. */
    method Crawl(links: seq<Fetch>, arrivals: seq<seq<Fetch>>)
      requires Valid()
      requires ArrivalsFit(links, arrivals)
      modifies this
      ensures Valid()
      ensures sitedata == CommitAll(old(sitedata), Flatten(arrivals))
      ensures Tallies(sitedata) == Tallies(CommitAll(old(sitedata), links))
      ensures DistinctWithinBatches(links) ==> sitedata == CommitAll(old(sitedata), links)
    {
      BatchCount(links);
      var i := 0;
      var k := 0;
      while i < |links|
        invariant i == Start(k) && k <= |arrivals|
        invariant k < |arrivals| <==> i < |links|
        invariant Valid()
        invariant sitedata == CommitAll(old(sitedata), Flatten(arrivals[..k]))
      {
        var batch := links[i..Min(i + BatchSize, |links|)];
        BatchTurn(links, arrivals, k, i);
        CommitNextBatch(old(sitedata), arrivals, k);
        ProcessBatch(batch, arrivals[k]);
        i := i + BatchSize;
        k := k + 1;
      }
      assert arrivals[..|arrivals|] == arrivals;
      CrawlOrder(old(sitedata), links, arrivals);
    }
  }

  /** Whatever order the fetches of each batch complete in, the link counts
      are those of committing the anchors in document order, and so is
      everything else when no batch fetches an href twice. */
  lemma CrawlOrder(rs: seq<PageRecord>, links: seq<Fetch>, arrivals: seq<seq<Fetch>>)
    requires ArrivalsFit(links, arrivals)
    ensures Tallies(CommitAll(rs, Flatten(arrivals))) == Tallies(CommitAll(rs, links))
    ensures DistinctWithinBatches(links) ==> CommitAll(rs, Flatten(arrivals)) == CommitAll(rs, links)
  {
    FlattenRearranged(arrivals, Batches(links));
    FlattenBatches(links);
    TalliesAnyOrder(rs, Flatten(arrivals), links);
    if DistinctWithinBatches(links) {
      BatchwiseInOrder(rs, Batches(links), arrivals);
    }
  }

  /** Committing batch after batch, each in some rearrangement of its own
      order, gives the same records as committing them all in order, when
      no batch repeats an href. */
  lemma {:induction false} BatchwiseInOrder(rs: seq<PageRecord>, bs: seq<seq<Fetch>>, arrivals: seq<seq<Fetch>>)
    requires |arrivals| == |bs|
    requires forall k :: 0 <= k < |bs| ==> multiset(arrivals[k]) == multiset(bs[k])
    requires forall k :: 0 <= k < |bs| ==> HrefsDistinct(bs[k])
    ensures CommitAll(rs, Flatten(arrivals)) == CommitAll(rs, Flatten(bs))
    decreases |bs|
  {
    if bs != [] {
      var n := |bs| - 1;
      BatchwiseInOrder(rs, bs[..n], arrivals[..n]);
      CommitAllAppend(rs, Flatten(arrivals[..n]), arrivals[n]);
      CommitAllAppend(rs, Flatten(bs[..n]), bs[n]);
      CommitAllAnyOrder(CommitAll(rs, Flatten(bs[..n])), arrivals[n], bs[n]);
    }
  }

  /** One turn of the batch loop: batch k is the slice at k * batchSize,
      its arrival order rearranges it, and the loop goes on exactly while
      batches remain. */
  lemma BatchTurn(links: seq<Fetch>, arrivals: seq<seq<Fetch>>, k: nat, i: nat)
    requires ArrivalsFit(links, arrivals) && k < |arrivals|
    requires i == Start(k) < |links|
    ensures Start(k + 1) == i + BatchSize
    ensures k + 1 < |arrivals| <==> i + BatchSize < |links|
    ensures multiset(arrivals[k]) == multiset(links[i..Min(i + BatchSize, |links|)])
  {
    PreviousStart(k + 1);
    BatchesRemain(links, k + 1);
    BatchAt(links, k);
  }

  /** Committing batch k after the batches before it commits the first k + 1
      batches. */
  lemma CommitNextBatch(rs: seq<PageRecord>, arrivals: seq<seq<Fetch>>, k: nat)
    requires k < |arrivals|
    ensures CommitAll(CommitAll(rs, Flatten(arrivals[..k])), arrivals[k]) == CommitAll(rs, Flatten(arrivals[..k + 1]))
  {
    assert arrivals[..k + 1][..k] == arrivals[..k];
    CommitAllAppend(rs, Flatten(arrivals[..k]), arrivals[k]);
  }

  /** There is a first batch exactly when there is an anchor. */
  lemma BatchCount<T>(s: seq<T>)
    ensures 0 < |Batches(s)| <==> 0 < |s|
  {
    BatchesRemain(s, 0);
  }

  /** The summary counts read only the link counts. */
  lemma {:induction false} CountsIgnoreStatus(rs: seq<PageRecord>)
    ensures PagesUsed(Tallies(rs)) == PagesUsed(rs)
    ensures PagesNotLinked(Tallies(rs)) == PagesNotLinked(rs)
    decreases |rs|
  {
    if rs != [] {
      assert Tallies(rs)[..|rs| - 1] == Tallies(rs[..|rs| - 1]);
      CountsIgnoreStatus(rs[..|rs| - 1]);
    }
  }

  /** `runSitemapUsageAnalyzer`: no summary when the sitemap is unavailable;
      otherwise seed, crawl the displayed page's anchors, and count. The
      "used" and "not linked" counts do not depend on the arrival order; the
      error count does not either when no batch fetches an href twice. */
  method Run(sitemap: Sitemap, links: seq<Fetch>, arrivals: seq<seq<Fetch>>) returns (report: Option<Counts>)
    requires ArrivalsFit(links, arrivals)
    ensures sitemap.Unavailable? ==> report == None
    ensures sitemap.Loaded? ==>
              report == Some(Summarize(CommitAll(Seeded(sitemap.locs), Flatten(arrivals))))
    ensures sitemap.Loaded? ==>
              var inOrder := CommitAll(Seeded(sitemap.locs), links);
              && report.Some?
              && report.value.total == |Seeded(sitemap.locs)|
              && report.value.used == PagesUsed(inOrder)
              && report.value.notLinked == PagesNotLinked(inOrder)
    ensures sitemap.Loaded? && DistinctWithinBatches(links) ==>
              report == Some(Summarize(CommitAll(Seeded(sitemap.locs), links)))
  {
    if sitemap.Unavailable? {
      report := None;
    } else {
      var analyzer := new SitemapUsageAnalyzer.Seed(sitemap.locs);
      analyzer.Crawl(links, arrivals);
      report := Some(Summarize(analyzer.sitedata));
      CountsIgnoreStatus(analyzer.sitedata);
      CountsIgnoreStatus(CommitAll(Seeded(sitemap.locs), links));
    }
  }
}
