/** The four counts the summary tab shows, each a `filter(...).length` over
    `sitedata` (the page itself, its markup and the popup are not modelled). */
module Summary {
  import opened SiteData
  import opened MapSum

  datatype Counts = Counts(total: nat, used: nat, notLinked: nat, errors: nat)

  /** `sitedata.filter(d => d.usedCount > 0).length` */
  function PagesUsed(rs: seq<PageRecord>): (n: nat)
    ensures n <= |rs|
  {
    if rs == [] then 0
    else PagesUsed(rs[..|rs| - 1]) + (if rs[|rs| - 1].usedCount > 0 then 1 else 0)
  }

  /** `sitedata.filter(d => d.usedCount === 0).length` */
  function PagesNotLinked(rs: seq<PageRecord>): (n: nat)
    ensures n <= |rs|
  {
    if rs == [] then 0
    else PagesNotLinked(rs[..|rs| - 1]) + (if rs[|rs| - 1].usedCount == 0 then 1 else 0)
  }

  /** `sitedata.filter(d => d.status !== 'OK').length`: a page that never
      got a status is counted too. */
  function PagesWithErrors(rs: seq<PageRecord>): (n: nat)
    ensures n <= |rs|
  {
    if rs == [] then 0
    else PagesWithErrors(rs[..|rs| - 1]) + (if rs[|rs| - 1].status != Some(OK) then 1 else 0)
  }

  /** The number of records whose status is exactly `s`. */
  function PagesWithStatus(rs: seq<PageRecord>, s: Option<Status>): (n: nat)
    ensures n <= |rs|
  {
    if rs == [] then 0
    else PagesWithStatus(rs[..|rs| - 1], s) + (if rs[|rs| - 1].status == s then 1 else 0)
  }

  /** Every page is either used or not linked, never both. */
  lemma {:induction false} UsedOrNotLinked(rs: seq<PageRecord>)
    ensures PagesUsed(rs) + PagesNotLinked(rs) == |rs|
    decreases |rs|
  {
    if rs != [] {
      UsedOrNotLinked(rs[..|rs| - 1]);
    }
  }

  /** The error count is the pages that failed plus the pages that were never
      checked, that is every page that is not 'OK'. */
  lemma {:induction false} ErrorsIncludeUnchecked(rs: seq<PageRecord>)
    ensures PagesWithErrors(rs) == PagesWithStatus(rs, Some(Error)) + PagesWithStatus(rs, None)
    ensures PagesWithErrors(rs) == |rs| - PagesWithStatus(rs, Some(OK))
    decreases |rs|
  {
    if rs != [] {
      ErrorsIncludeUnchecked(rs[..|rs| - 1]);
      var s := rs[|rs| - 1].status;
      assert s != Some(OK) <==> s == Some(Error) || s == None by {
        match s
        case None =>
        case Some(v) => assert v == OK || v == Error;
      }
    }
  }

  /** The summary box of the report. */
  function Summarize(rs: seq<PageRecord>): (c: Counts)
    ensures c.total == |rs| && c.used + c.notLinked == c.total
    ensures c.errors == |rs| - PagesWithStatus(rs, Some(OK))
  {
    UsedOrNotLinked(rs);
    ErrorsIncludeUnchecked(rs);
    Counts(|rs|, PagesUsed(rs), PagesNotLinked(rs), PagesWithErrors(rs))
  }

  /** Under the record invariant, "not linked" (a zero `usedCount`) is the
      same as having no referring page listed, which is what the details
      section of the report tests. */
  lemma NotLinkedIffNoReferrer(r: PageRecord)
    requires Consistent(r)
    ensures r.usedCount == 0 <==> r.usedByPages == map[]
  {
    SumZeroIffEmpty(r.usedByPages);
  }

  lemma {:induction false} NoneOfFresh(rs: seq<PageRecord>)
    requires forall i :: 0 <= i < |rs| ==> rs[i].usedCount == 0 && rs[i].status.None?
    ensures PagesUsed(rs) == 0 && PagesNotLinked(rs) == |rs| && PagesWithErrors(rs) == |rs|
    decreases |rs|
  {
    if rs != [] {
      NoneOfFresh(rs[..|rs| - 1]);
    }
  }

  /** Right after seeding, no page is used and every page counts as an error. */
  lemma SeededCounts(locs: seq<string>)
    ensures var n := |Seeded(locs)|;
            Summarize(Seeded(locs)) == Counts(n, 0, n, n)
  {
    NoneOfFresh(Seeded(locs));
  }
}
