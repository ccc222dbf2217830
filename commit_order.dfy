/** The fetches of one batch run concurrently, and each one's commit runs
    atomically when its response arrives, in an order nobody controls. This
    module proves what that order can and cannot change: the link counts
    never depend on it, and the statuses depend on it only when the same href
    is fetched twice. */
module CommitOrder {
  import opened SiteData
  import opened MapSum

  /** A record with its status erased: the link counts alone. */
  function Tally(r: PageRecord): PageRecord
  {
    r.(status := None, statusCode := None)
  }

  function Tallies(rs: seq<PageRecord>): (ts: seq<PageRecord>)
    ensures |ts| == |rs|
  {
    seq(|rs|, i requires 0 <= i < |rs| => Tally(rs[i]))
  }

  function CreditAll(rs: seq<PageRecord>, fs: seq<Fetch>): seq<PageRecord>
  {
    if fs == [] then rs
    else CreditFetch(CreditAll(rs, fs[..|fs| - 1]), fs[|fs| - 1])
  }

  // ------------------------------------------------ counting ignores statuses

  lemma TalliesSetStatus(rs: seq<PageRecord>, href: string, s: Status, c: StatusCode)
    ensures Tallies(SetStatus(rs, href, s, c)) == Tallies(rs)
  {
    var r := SetStatus(rs, href, s, c);
    forall i | 0 <= i < |rs| ensures Tallies(r)[i] == Tallies(rs)[i] {
      if IsFirstMatch(rs, i, href) {
        assert r[i] == rs[i].(status := Some(s), statusCode := Some(c));
      }
    }
  }

  lemma TalliesCreditLink(rs: seq<PageRecord>, href: string, referrer: string)
    ensures Tallies(CreditLink(rs, href, referrer)) == CreditLink(Tallies(rs), href, referrer)
  {
    assert SameUrls(rs, Tallies(rs));
    FindFirstSameUrls(rs, Tallies(rs), href);
  }

  lemma {:induction false} TalliesCreditLinks(rs: seq<PageRecord>, hrefs: seq<string>, referrer: string)
    ensures Tallies(CreditLinks(rs, hrefs, referrer)) == CreditLinks(Tallies(rs), hrefs, referrer)
    decreases |hrefs|
  {
    if hrefs != [] {
      var front := hrefs[..|hrefs| - 1];
      TalliesCreditLinks(rs, front, referrer);
      TalliesCreditLink(CreditLinks(rs, front, referrer), hrefs[|hrefs| - 1], referrer);
    }
  }

  /** The link counts after a series of commits are those of the counting
      alone, started from the link counts before. */
  lemma {:induction false} TalliesCommitAll(rs: seq<PageRecord>, fs: seq<Fetch>)
    ensures Tallies(CommitAll(rs, fs)) == CreditAll(Tallies(rs), fs)
    decreases |fs|
  {
    if fs != [] {
      var front := fs[..|fs| - 1];
      var f := fs[|fs| - 1];
      var mid := CommitAll(rs, front);
      TalliesCommitAll(rs, front);
      TalliesSetStatus(CreditFetch(mid, f), f.href, WrittenStatus(f.outcome), WrittenCode(f.outcome));
      match f.outcome
      case Response(code, hrefs) =>
        if IsOk(code) { TalliesCreditLinks(mid, hrefs, f.href); }
      case Thrown(_) =>
    }
  }

  // ------------------------------------------------ commuting single steps

  lemma CreditCommutes(r: PageRecord, p1: string, p2: string)
    ensures Credit(Credit(r, p1), p2) == Credit(Credit(r, p2), p1)
  {
    if p1 != p2 {
      var m: map<string, nat> := r.usedByPages;
      var v1: nat, v2: nat := Get(m, p1) + 1, Get(m, p2) + 1;
      assert Get(m[p1 := v1], p2) == Get(m, p2);
      assert Get(m[p2 := v2], p1) == Get(m, p1);
      assert m[p1 := v1][p2 := v2] == m[p2 := v2][p1 := v1];
    }
  }

  lemma CreditLinkCommutes(rs: seq<PageRecord>, h1: string, p1: string, h2: string, p2: string)
    ensures CreditLink(CreditLink(rs, h1, p1), h2, p2) == CreditLink(CreditLink(rs, h2, p2), h1, p1)
  {
    var r1 := CreditLink(rs, h1, p1);
    var r2 := CreditLink(rs, h2, p2);
    FindFirstSameUrls(rs, r1, h2);
    FindFirstSameUrls(rs, r2, h1);
    if FindFirst(rs, h1).Some? && FindFirst(rs, h2).Some? {
      var i, j := FindFirst(rs, h1).value, FindFirst(rs, h2).value;
      assert r1 == rs[i := Credit(rs[i], p1)];
      assert r2 == rs[j := Credit(rs[j], p2)];
      if i == j {
        CreditCommutes(rs[i], p1, p2);
      } else {
        assert r1[j := Credit(r1[j], p2)] == r2[i := Credit(r2[i], p1)];
      }
    }
  }

  lemma {:induction false} CreditLinksCommutesWithLink(rs: seq<PageRecord>, hrefs: seq<string>, q: string, h: string, p: string)
    ensures CreditLinks(CreditLink(rs, h, p), hrefs, q) == CreditLink(CreditLinks(rs, hrefs, q), h, p)
    decreases |hrefs|
  {
    if hrefs != [] {
      var front := hrefs[..|hrefs| - 1];
      var last := hrefs[|hrefs| - 1];
      CreditLinksCommutesWithLink(rs, front, q, h, p);
      CreditLinkCommutes(CreditLinks(rs, front, q), h, p, last, q);
    }
  }

  lemma {:induction false} CreditLinksCommute(rs: seq<PageRecord>, hs1: seq<string>, p1: string, hs2: seq<string>, p2: string)
    ensures CreditLinks(CreditLinks(rs, hs1, p1), hs2, p2) == CreditLinks(CreditLinks(rs, hs2, p2), hs1, p1)
    decreases |hs2|
  {
    if hs2 != [] {
      var front := hs2[..|hs2| - 1];
      var last := hs2[|hs2| - 1];
      CreditLinksCommute(rs, hs1, p1, front, p2);
      CreditLinksCommutesWithLink(CreditLinks(rs, front, p2), hs1, p1, last, p2);
    }
  }

  /** The link counting of two fetched pages can be done in either order. */
  lemma CreditFetchCommutes(rs: seq<PageRecord>, a: Fetch, b: Fetch)
    ensures CreditFetch(CreditFetch(rs, a), b) == CreditFetch(CreditFetch(rs, b), a)
  {
    match (a.outcome, b.outcome)
    case (Response(ca, ha), Response(cb, hb)) =>
      if IsOk(ca) && IsOk(cb) { CreditLinksCommute(rs, ha, a.href, hb, b.href); }
    case _ =>
  }

  lemma SetStatusCommutesWithLink(rs: seq<PageRecord>, href: string, s: Status, c: StatusCode, h: string, p: string)
    ensures CreditLink(SetStatus(rs, href, s, c), h, p) == SetStatus(CreditLink(rs, h, p), href, s, c)
  {
    FindFirstSameUrls(rs, SetStatus(rs, href, s, c), h);
    FindFirstSameUrls(rs, CreditLink(rs, h, p), href);
  }

  lemma {:induction false} SetStatusCommutesWithLinks(rs: seq<PageRecord>, href: string, s: Status, c: StatusCode, hrefs: seq<string>, p: string)
    ensures CreditLinks(SetStatus(rs, href, s, c), hrefs, p) == SetStatus(CreditLinks(rs, hrefs, p), href, s, c)
    decreases |hrefs|
  {
    if hrefs != [] {
      var front := hrefs[..|hrefs| - 1];
      SetStatusCommutesWithLinks(rs, href, s, c, front, p);
      SetStatusCommutesWithLink(CreditLinks(rs, front, p), href, s, c, hrefs[|hrefs| - 1], p);
    }
  }

  lemma SetStatusCommutesWithFetch(rs: seq<PageRecord>, href: string, s: Status, c: StatusCode, f: Fetch)
    ensures CreditFetch(SetStatus(rs, href, s, c), f) == SetStatus(CreditFetch(rs, f), href, s, c)
  {
    match f.outcome
    case Response(code, hrefs) =>
      if IsOk(code) { SetStatusCommutesWithLinks(rs, href, s, c, hrefs, f.href); }
    case Thrown(_) =>
  }

  lemma SetStatusCommutes(rs: seq<PageRecord>, h1: string, s1: Status, c1: StatusCode, h2: string, s2: Status, c2: StatusCode)
    requires h1 != h2
    ensures SetStatus(SetStatus(rs, h1, s1, c1), h2, s2, c2) == SetStatus(SetStatus(rs, h2, s2, c2), h1, s1, c1)
  {
    FindFirstSameUrls(rs, SetStatus(rs, h1, s1, c1), h2);
    FindFirstSameUrls(rs, SetStatus(rs, h2, s2, c2), h1);
  }

  /** Two commits for different hrefs can be done in either order. */
  lemma CommitCommutes(rs: seq<PageRecord>, a: Fetch, b: Fetch)
    requires a.href != b.href
    ensures Commit(Commit(rs, a), b) == Commit(Commit(rs, b), a)
  {
    var sa, ca := WrittenStatus(a.outcome), WrittenCode(a.outcome);
    var sb, cb := WrittenStatus(b.outcome), WrittenCode(b.outcome);
    SetStatusCommutesWithFetch(CreditFetch(rs, a), a.href, sa, ca, b);
    SetStatusCommutesWithFetch(CreditFetch(rs, b), b.href, sb, cb, a);
    CreditFetchCommutes(rs, a, b);
    SetStatusCommutes(CreditFetch(CreditFetch(rs, a), b), a.href, sa, ca, b.href, sb, cb);
  }

  // ------------------------------------------------ any arrival order

  lemma {:induction false} CreditAllMoveToEnd(rs: seq<PageRecord>, a: seq<Fetch>, x: Fetch, b: seq<Fetch>)
    ensures CreditAll(rs, a + [x] + b) == CreditAll(rs, a + b + [x])
    decreases |b|
  {
    if b == [] {
      assert a + [x] + b == a + b + [x];
    } else {
      var front := b[..|b| - 1];
      var y := b[|b| - 1];
      assert (a + [x] + b)[..|a + [x] + b| - 1] == a + [x] + front;
      assert (a + [x] + b)[|a + [x] + b| - 1] == y;
      CreditAllMoveToEnd(rs, a, x, front);
      assert (a + front + [x])[..|a + front + [x]| - 1] == a + front;
      assert (a + front + [y])[..|a + front + [y]| - 1] == a + front;
      assert a + b == a + front + [y];
      assert (a + b + [x])[..|a + b + [x]| - 1] == a + b;
      CreditFetchCommutes(CreditAll(rs, a + front), x, y);
    }
  }

  /** Taking out of `gs` the element that `fs` ends with leaves the
      multiset of the rest of `fs`. */
  lemma RemoveMatching(fs: seq<Fetch>, gs: seq<Fetch>, j: nat)
    requires fs != [] && multiset(fs) == multiset(gs)
    requires j < |gs| && gs[j] == fs[|fs| - 1]
    ensures gs == gs[..j] + [gs[j]] + gs[j + 1..]
    ensures multiset(gs[..j] + gs[j + 1..]) == multiset(fs[..|fs| - 1])
  {
    var front := fs[..|fs| - 1];
    var x := gs[j];
    assert fs == front + [x];
    assert gs == gs[..j] + [x] + gs[j + 1..];
    var rest := gs[..j] + gs[j + 1..];
    assert multiset(rest) == multiset(gs[..j]) + multiset(gs[j + 1..]);
    assert multiset(gs) == multiset(rest) + multiset{x};
    assert multiset(fs) == multiset(front) + multiset{x};
    assert multiset(rest) == multiset(gs) - multiset{x};
    assert multiset(front) == multiset(fs) - multiset{x};
  }

  /** Whatever order the fetches of a list complete in, the link counts
      come out the same: no increment is lost or depends on timing. */
  lemma {:induction false} CreditAllAnyOrder(rs: seq<PageRecord>, fs: seq<Fetch>, gs: seq<Fetch>)
    requires multiset(fs) == multiset(gs)
    ensures CreditAll(rs, fs) == CreditAll(rs, gs)
    decreases |fs|
  {
    if fs == [] {
      assert |gs| == |multiset(gs)| == 0;
    } else {
      var front := fs[..|fs| - 1];
      var x := fs[|fs| - 1];
      assert fs == front + [x];
      assert x in multiset(gs);
      var j :| 0 <= j < |gs| && gs[j] == x;
      var rest := gs[..j] + gs[j + 1..];
      RemoveMatching(fs, gs, j);
      CreditAllAnyOrder(rs, front, rest);
      CreditAllMoveToEnd(rs, gs[..j], x, gs[j + 1..]);
      assert (rest + [x])[..|rest + [x]| - 1] == rest;
    }
  }

  /** The link counts after committing a list do not depend on the order
      of its commits. */
  lemma TalliesAnyOrder(rs: seq<PageRecord>, fs: seq<Fetch>, gs: seq<Fetch>)
    requires multiset(fs) == multiset(gs)
    ensures Tallies(CommitAll(rs, fs)) == Tallies(CommitAll(rs, gs))
  {
    TalliesCommitAll(rs, fs);
    TalliesCommitAll(rs, gs);
    CreditAllAnyOrder(Tallies(rs), fs, gs);
  }

  /** No href is fetched twice. */
  predicate HrefsDistinct(fs: seq<Fetch>)
  {
    forall i, j :: 0 <= i < j < |fs| ==> fs[i].href != fs[j].href
  }

  /** Taking one fetch out of a list with distinct hrefs leaves a list with
      distinct hrefs. */
  lemma RemoveDistinct(gs: seq<Fetch>, j: nat)
    requires HrefsDistinct(gs) && j < |gs|
    ensures HrefsDistinct(gs[..j] + gs[j + 1..])
  {
    var rest := gs[..j] + gs[j + 1..];
    forall k, l | 0 <= k < l < |rest| ensures rest[k].href != rest[l].href {
      var k' := if k < j then k else k + 1;
      var l' := if l < j then l else l + 1;
      assert rest[k] == gs[k'] && rest[l] == gs[l'];
    }
  }

  /** Committing one more fetch after a list of them. */
  lemma CommitAllSnoc(rs: seq<PageRecord>, fs: seq<Fetch>, f: Fetch)
    ensures CommitAll(rs, fs + [f]) == Commit(CommitAll(rs, fs), f)
  {
    assert (fs + [f])[..|fs|] == fs;
  }

  lemma {:induction false} CommitAllMoveToEnd(rs: seq<PageRecord>, a: seq<Fetch>, x: Fetch, b: seq<Fetch>)
    requires forall k :: 0 <= k < |b| ==> b[k].href != x.href
    ensures CommitAll(rs, a + [x] + b) == CommitAll(rs, a + b + [x])
    decreases |b|
  {
    if b == [] {
      assert a + [x] + b == a + b + [x];
    } else {
      var front := b[..|b| - 1];
      var y := b[|b| - 1];
      var mid := CommitAll(rs, a + front);
      assert a + [x] + b == (a + [x] + front) + [y];
      assert a + b == (a + front) + [y];
      CommitAllMoveToEnd(rs, a, x, front);
      CommitAllSnoc(rs, a + [x] + front, y);
      CommitAllSnoc(rs, a + front, x);
      CommitAllSnoc(rs, a + front, y);
      CommitAllSnoc(rs, a + b, x);
      CommitCommutes(mid, x, y);
    }
  }

  /** When no href is fetched twice, the whole registry, statuses included,
      does not depend on the order of the commits. */
  lemma {:induction false} CommitAllAnyOrder(rs: seq<PageRecord>, fs: seq<Fetch>, gs: seq<Fetch>)
    requires multiset(fs) == multiset(gs)
    requires HrefsDistinct(gs)
    ensures CommitAll(rs, fs) == CommitAll(rs, gs)
    decreases |fs|
  {
    if fs == [] {
      assert |gs| == |multiset(gs)| == 0;
    } else {
      var front := fs[..|fs| - 1];
      var x := fs[|fs| - 1];
      assert fs == front + [x];
      assert x in multiset(gs);
      var j :| 0 <= j < |gs| && gs[j] == x;
      var rest := gs[..j] + gs[j + 1..];
      RemoveMatching(fs, gs, j);
      RemoveDistinct(gs, j);
      CommitAllAnyOrder(rs, front, rest);
      var tail := gs[j + 1..];
      forall k | 0 <= k < |tail| ensures tail[k].href != x.href {
        assert tail[k] == gs[j + 1 + k];
      }
      CommitAllMoveToEnd(rs, gs[..j], x, tail);
      CommitAllSnoc(rs, front, x);
      CommitAllSnoc(rs, rest, x);
    }
  }
}
