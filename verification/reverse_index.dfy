/**
 * The inverted link map: for every name that some page links to or redirects
 * to, the pages that do so, in the order the site is walked.
 */
module ReverseIndex {
  import opened Pages

  type Index = map<string, seq<string>>

  /** The names a page points at: the links of a content page, or the
      destination of a redirect. */
  function Targets(page: Page): (t: set<string>)
    ensures page.Redirect? ==> t == {page.target}
    ensures page.Content? ==> t == page.links
  {
    match page
    case Content(links) => links
    case Redirect(target) => {target}
  }

  /** Every name some page of the site points at. */
  function AllTargets(site: Site): set<string>
    decreases |site|
  {
    if site == [] then {}
    else AllTargets(site[..|site| - 1]) + Targets(site[|site| - 1].1.page)
  }

  /** The names of the pages pointing at `l`, in site order. */
  function Referrers(site: Site, l: string): seq<string>
    decreases |site|
  {
    if site == [] then []
    else
      var last := site[|site| - 1];
      Referrers(site[..|site| - 1], l) + (if l in Targets(last.1.page) then [last.0] else [])
  }

  /** The reference definition of the finished inverted map. */
  function ReverseIndexOf(site: Site): Index {
    map l | l in AllTargets(site) :: Referrers(site, l)
  }

  /** What calling `AddLink(name)` once for each name in `links` does to `m`. */
  function AddAll(m: Index, links: set<string>, name: string): Index {
    map k | k in m.Keys + links :: (if k in m then m[k] else []) + (if k in links then [name] else [])
  }

  /** The inverted map under construction (the dictionary `inverseSite`). */
  class InverseSite {
    var entries: Index

    constructor ()
      ensures entries == map[]
    {
      entries := map[];
    }

    /** `AddLink`: append `name` to the list under `link`, creating the list
        when `link` is new; every other list is left as it was. */
    method AddLink(link: string, name: string)
      modifies this
      ensures entries.Keys == old(entries).Keys + {link}
      ensures entries[link] == (if link in old(entries) then old(entries)[link] else []) + [name]
      ensures forall k :: k in old(entries) && k != link ==> entries[k] == old(entries)[k]
    {
      if link in entries {
        entries := entries[link := entries[link] + [name]];
      } else {
        entries := entries[link := [name]];
      }
    }
  }

  /** Adding one more link of the same page extends `AddAll` by one `AddLink`. */
  lemma AddAllStep(m: Index, done: set<string>, link: string, name: string, after: Index)
    requires link !in done
    requires after.Keys == AddAll(m, done, name).Keys + {link}
    requires after[link] == (if link in AddAll(m, done, name) then AddAll(m, done, name)[link] else []) + [name]
    requires forall k :: k in AddAll(m, done, name) && k != link ==> after[k] == AddAll(m, done, name)[k]
    ensures after == AddAll(m, done + {link}, name)
  {
    var before := AddAll(m, done, name);
    var want := AddAll(m, done + {link}, name);
    assert after.Keys == want.Keys;
    forall k | k in want ensures after[k] == want[k] {
      if k != link {
        assert k in before;
      }
    }
  }

  /** Walking one more page adds that page's name under each of its targets. */
  lemma ReverseIndexStep(site: Site)
    requires site != []
    ensures ReverseIndexOf(site) ==
              AddAll(ReverseIndexOf(site[..|site| - 1]), Targets(site[|site| - 1].1.page), site[|site| - 1].0)
  {
    var init := site[..|site| - 1];
    var last := site[|site| - 1];
    var lhs := ReverseIndexOf(site);
    var rhs := AddAll(ReverseIndexOf(init), Targets(last.1.page), last.0);
    assert lhs.Keys == rhs.Keys;
    forall k | k in lhs ensures lhs[k] == rhs[k] {
      if k !in AllTargets(init) {
        ReferrersOutside(init, k);
      }
    }
  }

  /** A name nobody points at has no referrers. */
  lemma {:induction false} ReferrersOutside(site: Site, l: string)
    requires l !in AllTargets(site)
    ensures Referrers(site, l) == []
    decreases |site|
  {
    if site != [] {
      ReferrersOutside(site[..|site| - 1], l);
    }
  }

  lemma AddAllNone(m: Index, name: string)
    ensures AddAll(m, {}, name) == m
  {
    var r := AddAll(m, {}, name);
    assert r.Keys == m.Keys;
    forall k | k in m ensures r[k] == m[k] {
      assert m[k] + [] == m[k];
    }
  }

  /** The inner loop: `AddLink` for every link of one content page, in any order. */
  method AddLinks(inverseSite: InverseSite, links: set<string>, name: string)
    modifies inverseSite
    ensures inverseSite.entries == AddAll(old(inverseSite.entries), links, name)
  {
    ghost var before := inverseSite.entries;
    AddAllNone(before, name);
    var remaining := links;
    ghost var done: set<string> := {};
    while remaining != {}
      invariant done + remaining == links && done !! remaining
      invariant inverseSite.entries == AddAll(before, done, name)
      decreases remaining
    {
      var link :| link in remaining;
      inverseSite.AddLink(link, name);
      AddAllStep(before, done, link, name, inverseSite.entries);
      remaining := remaining - {link};
      done := done + {link};
    }
  }

  /** The loop of the analysis that builds `inverseSite`: for each page in
      site order, `AddLink` for every link of a content page, or for the
      destination of a redirect. The links of one page are taken in any
      order. */
  method BuildReverseIndex(site: Site) returns (index: Index)
    ensures index == ReverseIndexOf(site)
  {
    var inverseSite := new InverseSite();
    var i := 0;
    while i < |site|
      invariant 0 <= i <= |site|
      invariant inverseSite.entries == ReverseIndexOf(site[..i])
    {
      var (key, val) := site[i];
      match val.page {
        case Content(links) =>
          AddLinks(inverseSite, links, key);
        case Redirect(target) =>
          ghost var before := inverseSite.entries;
          AddAllNone(before, key);
          inverseSite.AddLink(target, key);
          AddAllStep(before, {}, target, key, inverseSite.entries);
      }
      assert site[..i + 1][..i] == site[..i];
      ReverseIndexStep(site[..i + 1]);
      i := i + 1;
    }
    assert site[..i] == site;
    index := inverseSite.entries;
  }

  // ---------------------------------------------------------------------------
  // What the finished map says

  /** A name is a key exactly when some content page links to it or some
      redirect names it as its destination. */
  lemma {:induction false} KeysAreTargets(site: Site, l: string)
    ensures l in ReverseIndexOf(site) <==>
              exists i :: 0 <= i < |site| && l in Targets(site[i].1.page)
    decreases |site|
  {
    if site != [] {
      var init := site[..|site| - 1];
      KeysAreTargets(init, l);
      if l in AllTargets(init) {
        var i :| 0 <= i < |init| && l in Targets(init[i].1.page);
        assert site[i] == init[i];
      }
      if exists i :: 0 <= i < |site| && l in Targets(site[i].1.page) {
        var i :| 0 <= i < |site| && l in Targets(site[i].1.page);
        if i < |init| {
          assert init[i] == site[i];
        }
      }
    }
  }

  /** A page name is listed under `l` exactly when that page links to `l` or
      redirects to it. */
  lemma {:induction false} ReferrersIff(site: Site, l: string, p: string)
    ensures p in Referrers(site, l) <==>
              exists i :: 0 <= i < |site| && site[i].0 == p && l in Targets(site[i].1.page)
    decreases |site|
  {
    if site != [] {
      var init := site[..|site| - 1];
      ReferrersIff(init, l, p);
      if exists i :: 0 <= i < |init| && init[i].0 == p && l in Targets(init[i].1.page) {
        var i :| 0 <= i < |init| && init[i].0 == p && l in Targets(init[i].1.page);
        assert site[i] == init[i];
      }
      if exists i :: 0 <= i < |site| && site[i].0 == p && l in Targets(site[i].1.page) {
        var i :| 0 <= i < |site| && site[i].0 == p && l in Targets(site[i].1.page);
        if i < |init| {
          assert init[i] == site[i];
        }
      }
    }
  }

  /** No page is listed twice under the same name, since page names are
      dictionary keys. */
  lemma {:induction false} ReferrersOnce(site: Site, l: string)
    requires DistinctNames(site)
    ensures forall a, b :: 0 <= a < b < |Referrers(site, l)| ==> Referrers(site, l)[a] != Referrers(site, l)[b]
    decreases |site|
  {
    if site != [] {
      var init := site[..|site| - 1];
      var last := site[|site| - 1];
      assert DistinctNames(init) by {
        forall i, j | 0 <= i < j < |init| ensures init[i].0 != init[j].0 {
          assert init[i] == site[i] && init[j] == site[j];
        }
      }
      ReferrersOnce(init, l);
      var r := Referrers(init, l);
      if l in Targets(last.1.page) {
        ReferrersIff(init, l, last.0);
        forall i | 0 <= i < |init| ensures init[i].0 != last.0 {
          assert init[i] == site[i];
        }
        forall a, b | 0 <= a < b < |r| + 1 ensures (r + [last.0])[a] != (r + [last.0])[b] {
          if b == |r| {
            assert (r + [last.0])[a] == r[a];
          }
        }
      }
    }
  }

  /** The finished map, entry by entry: its keys are the names pointed at, and
      each list holds exactly the pages pointing at that name, each once. */
  lemma ReverseIndexMeaning(site: Site, l: string, p: string)
    requires DistinctNames(site)
    ensures l in ReverseIndexOf(site) <==> exists i :: 0 <= i < |site| && l in Targets(site[i].1.page)
    ensures l in ReverseIndexOf(site) ==>
              && ReverseIndexOf(site)[l] != []
              && (p in ReverseIndexOf(site)[l] <==>
                    exists i :: 0 <= i < |site| && site[i].0 == p && l in Targets(site[i].1.page))
              && multiset(ReverseIndexOf(site)[l])[p] <= 1
  {
    KeysAreTargets(site, l);
    if l in ReverseIndexOf(site) {
      var r := ReverseIndexOf(site)[l];
      ReferrersIff(site, l, p);
      ReferrersOnce(site, l);
      var i :| 0 <= i < |site| && l in Targets(site[i].1.page);
      ReferrersIff(site, l, site[i].0);
      assert site[i].0 in r;
      DistinctCountsOnce(r, p);
    }
  }

  /** In a sequence without repeats every element occurs at most once. */
  lemma {:induction false} DistinctCountsOnce(r: seq<string>, p: string)
    requires forall a, b :: 0 <= a < b < |r| ==> r[a] != r[b]
    ensures multiset(r)[p] <= 1
    decreases |r|
  {
    if r != [] {
      var t := r[1..];
      assert r == [r[0]] + t;
      DistinctCountsOnce(t, p);
      if r[0] == p {
        forall b | 0 <= b < |t| ensures t[b] != p {
          assert t[b] == r[b + 1];
        }
      }
    }
  }
}
