/**
 * The three redirect reports: redirects whose destination is written all in
 * small letters, chains of redirects, and redirects whose destination is not
 * a page of the site. Page names are looked up by their Wikidot form
 * (`canon`), which is a parameter of the model.
 */
module Redirects {
  import opened Text
  import opened Pages

  /** The separator between the names of a report line. */
  const Arrow: string := "  ==>  "

  // ---------------------------------------------------------------------------
  // Redirects written in small letters

  /** `r == r.lower() and not r.isdigit()`: a destination with no capital
      letter that is not a plain number. */
  predicate LowercaseSuspect(r: string) {
    Lower(r) == r && !IsDigits(r)
  }

  /** The line for one page, if any: the page name and its destination. */
  function LowercaseEntry(key: string, info: PageInfo): seq<string> {
    match info.page
    case Content(_) => []
    case Redirect(r) => if LowercaseSuspect(r) then [key + Arrow + r] else []
  }

  /** The lines written for the first `n` pages of the site. */
  function LowercaseReport(site: Site, n: nat): seq<string>
    requires n <= |site|
  {
    if n == 0 then [] else LowercaseReport(site, n - 1) + LowercaseEntry(site[n - 1].0, site[n - 1].1)
  }

  /** The loop over the site that lists the redirects in small letters and
      counts them. */
  method LowercaseRedirects(site: Site) returns (count: nat, lines: seq<string>)
    ensures lines == LowercaseReport(site, |site|)
    ensures count == |lines|
  {
    count := 0;
    lines := [];
    for i := 0 to |site|
      invariant lines == LowercaseReport(site, i) && count == |lines|
    {
      var (key, val) := site[i];
      if val.page.Redirect? {
        var r := val.page.target;
        if Lower(r) == r && !IsDigits(r) {
          lines := lines + [key + Arrow + r];
          count := count + 1;
        }
      }
    }
  }

  /** A name is unchanged by `lower()` exactly when it has no capital letter. */
  lemma LowerUnchangedIff(t: string)
    ensures Lower(t) == t <==> forall i :: 0 <= i < |t| ==> !IsAsciiUpper(t[i])
  {
    if forall i :: 0 <= i < |t| ==> !IsAsciiUpper(t[i]) {
      assert Lower(t) == t;
    } else {
      var i :| 0 <= i < |t| && IsAsciiUpper(t[i]);
      assert Lower(t)[i] != t[i];
    }
  }

  /** A line is listed exactly for a redirect, in site order, whose destination
      has no capital letter and is not a number. */
  lemma {:induction false} LowercaseListed(site: Site, n: nat, line: string)
    requires n <= |site|
    ensures line in LowercaseReport(site, n) <==>
              exists i :: 0 <= i < n && site[i].1.page.Redirect? && LowercaseSuspect(site[i].1.page.target)
                          && line == site[i].0 + Arrow + site[i].1.page.target
  {
    if n > 0 {
      LowercaseListed(site, n - 1, line);
    }
  }

  /** A destination with no capital letter and something other than a digit
      is listed. */
  lemma NoCapitalListed(t: string, k: int)
    requires forall i :: 0 <= i < |t| ==> !IsAsciiUpper(t[i])
    requires 0 <= k < |t| && !('0' <= t[k] <= '9')
    ensures LowercaseSuspect(t)
  {
    LowerUnchangedIff(t);
  }

  /** A destination with a capital letter is not listed. */
  lemma CapitalNotListed(t: string, k: int)
    requires 0 <= k < |t| && IsAsciiUpper(t[k])
    ensures !LowercaseSuspect(t)
  {
    LowerUnchangedIff(t);
  }

  /** A destination in small letters with an underscore is listed. */
  lemma LowercaseExample()
    ensures LowercaseSuspect("elvis_presley")
  {
    NoCapitalListed("elvis_presley", 0);
  }

  /** A destination with capitals is not listed. */
  lemma CapitalizedExample()
    ensures !LowercaseSuspect("Elvis Presley")
  {
    CapitalNotListed("Elvis Presley", 0);
  }

  /** A destination that is a number is not listed. */
  lemma NumberExample()
    ensures !LowercaseSuspect("1984")
  {
    assert IsDigits("1984");
  }

  // ---------------------------------------------------------------------------
  // Chains of redirects

  /** What the walk from one page writes, and whether it adds to the count. */
  datatype Entry = Entry(lines: seq<string>, counted: bool)

  const Nothing := Entry([], false)

  /** The walk from one page: nothing unless the page redirects to a page
      that redirects again. Then a line to the third name, marked
      `(missing)` and counted when it is not a page; otherwise a line through
      the third page's title, not counted, and when the third page redirects
      too, a further counted line ending with the Wikidot form of its
      destination, marked `(missing)` when that is not a page. */
  function DoubleEntry(canon: string -> string, site: Site, info: PageInfo): Entry {
    match info.page
    case Content(_) => Nothing
    case Redirect(target) =>
      var pageT := info.title;
      var pageCR := canon(target);
      match Lookup(site, pageCR)
      case None => Nothing
      case Some(second) =>
        match second.page
        case Content(_) => Nothing
        case Redirect(target2) =>
          var pageRT := second.title;
          var pageRCR := canon(target2);
          match Lookup(site, pageRCR)
          case None => Entry([pageT + Arrow + pageRT + Arrow + "(missing) " + pageRCR], true)
          case Some(third) =>
            var two := pageT + Arrow + pageRT + Arrow + third.title;
            match third.page
            case Content(_) => Entry([two], false)
            case Redirect(target3) =>
              var pageRRCR := canon(target3);
              if pageRRCR !in Names(site) then Entry([two, two + Arrow + "(missing) " + pageRRCR], true)
              else Entry([two, two + Arrow + pageRRCR], true)
  }

  /** The lines written for the first `n` pages of the site. */
  function DoubleReport(canon: string -> string, site: Site, n: nat): seq<string>
    requires n <= |site|
  {
    if n == 0 then [] else DoubleReport(canon, site, n - 1) + DoubleEntry(canon, site, site[n - 1].1).lines
  }

  /** The count after the first `n` pages. */
  function DoubleCount(canon: string -> string, site: Site, n: nat): nat
    requires n <= |site|
  {
    if n == 0 then 0
    else DoubleCount(canon, site, n - 1) + (if DoubleEntry(canon, site, site[n - 1].1).counted then 1 else 0)
  }

  /** The loop over the site that follows each redirect two and three steps. */
  method DoubleRedirects(canon: string -> string, site: Site) returns (count: nat, lines: seq<string>)
    ensures lines == DoubleReport(canon, site, |site|)
    ensures count == DoubleCount(canon, site, |site|)
  {
    count := 0;
    lines := [];
    for i := 0 to |site|
      invariant lines == DoubleReport(canon, site, i)
      invariant count == DoubleCount(canon, site, i)
    {
      var (key, val) := site[i];
      ghost var e := DoubleEntry(canon, site, val);
      assert DoubleReport(canon, site, i + 1) == lines + e.lines;
      assert DoubleCount(canon, site, i + 1) == count + (if e.counted then 1 else 0);
      if val.page.Content? {
        assert e == Nothing;
        continue;
      }
      var pageT := val.title;
      var pageCR := canon(val.page.target);
      var second := Lookup(site, pageCR);
      if second.None? || second.value.page.Content? {
        assert e == Nothing;
        continue;
      }
      var pageRT := second.value.title;
      var pageRCR := canon(second.value.page.target);
      var third := Lookup(site, pageRCR);
      if third.None? {
        assert e == Entry([pageT + Arrow + pageRT + Arrow + "(missing) " + pageRCR], true);
        lines := lines + [pageT + Arrow + pageRT + Arrow + "(missing) " + pageRCR];
        count := count + 1;
        continue;
      }
      var pageRRT := third.value.title;
      var two := pageT + Arrow + pageRT + Arrow + pageRRT;
      if third.value.page.Content? {
        assert e == Entry([two], false);
      }
      lines := lines + [two];
      if third.value.page.Redirect? {
        var pageRRCR := canon(third.value.page.target);
        if pageRRCR !in Names(site) {
          assert e == Entry([two, two + Arrow + "(missing) " + pageRRCR], true);
          lines := lines + [two + Arrow + "(missing) " + pageRRCR];
          count := count + 1;
          continue;
        }
        assert e == Entry([two, two + Arrow + pageRRCR], true);
        lines := lines + [two + Arrow + pageRRCR];
        count := count + 1;
      }
    }
  }

  /** The page a redirect leads to, when it is a redirect itself. */
  predicate StartsChain(canon: string -> string, site: Site, info: PageInfo) {
    && info.page.Redirect?
    && Lookup(site, canon(info.page.target)).Some?
    && Lookup(site, canon(info.page.target)).value.page.Redirect?
  }

  /** The walk writes something exactly for a redirect to a redirect, and it
      counts exactly those chains whose second destination is not a page or
      is a redirect again. */
  lemma DoubleEntryMeaning(canon: string -> string, site: Site, info: PageInfo)
    ensures DoubleEntry(canon, site, info).lines != [] <==> StartsChain(canon, site, info)
    ensures DoubleEntry(canon, site, info).counted <==>
              && StartsChain(canon, site, info)
              && var second := Lookup(site, canon(info.page.target)).value;
                 var third := Lookup(site, canon(second.page.target));
                 third.None? || third.value.page.Redirect?
  {
  }

  /** Every line of the walk starts with the page's title and the title of the
      page its redirect leads to. */
  lemma DoubleEntryLines(canon: string -> string, site: Site, info: PageInfo, k: int)
    requires 0 <= k < |DoubleEntry(canon, site, info).lines|
    ensures StartsChain(canon, site, info)
    ensures var head := info.title + Arrow + Lookup(site, canon(info.page.target)).value.title + Arrow;
            StartsWith(DoubleEntry(canon, site, info).lines[k], head)
  {
    var second := Lookup(site, canon(info.page.target)).value;
    var head := info.title + Arrow + second.title + Arrow;
    var third := Lookup(site, canon(second.page.target));
    var line := DoubleEntry(canon, site, info).lines[k];
    if third.None? {
      assert line == head + ("(missing) " + canon(second.page.target));
    } else {
      var two := head + third.value.title;
      if k == 0 {
        assert line == two;
      } else {
        assert line == two + Arrow + "(missing) " + canon(third.value.page.target)
            || line == two + Arrow + canon(third.value.page.target);
        assert line[..|two|] == two;
      }
      assert two[..|head|] == head;
      assert line[..|head|] == head;
    }
  }

  /** Each counted chain writes at least one line. */
  lemma {:induction false} DoubleCountBound(canon: string -> string, site: Site, n: nat)
    requires n <= |site|
    ensures DoubleCount(canon, site, n) <= |DoubleReport(canon, site, n)|
  {
    if n > 0 {
      DoubleCountBound(canon, site, n - 1);
      DoubleEntryMeaning(canon, site, site[n - 1].1);
    }
  }

  /** The chain `a -> b -> c` with `c` a content page is written but not
      counted. */
  lemma PlainChainUncounted(canon: string -> string, site: Site, info: PageInfo)
    requires StartsChain(canon, site, info)
    requires var second := Lookup(site, canon(info.page.target)).value;
             var third := Lookup(site, canon(second.page.target));
             third.Some? && third.value.page.Content?
    ensures |DoubleEntry(canon, site, info).lines| == 1
    ensures !DoubleEntry(canon, site, info).counted
  {
  }

  /** The smallest site with such a chain: `a` redirects to `b`, `b` to `c`,
      and `c` is a content page. One line is written and nothing counted. */
  lemma PlainChainExample(canon: string -> string)
    requires canon("b") == "b" && canon("c") == "c"
    ensures var site := [("a", PageInfo("A", Redirect("b"))), ("b", PageInfo("B", Redirect("c"))),
                         ("c", PageInfo("C", Content({})))];
            && DoubleReport(canon, site, 3) == ["A" + Arrow + "B" + Arrow + "C"]
            && DoubleCount(canon, site, 3) == 0
  {
    var site := [("a", PageInfo("A", Redirect("b"))), ("b", PageInfo("B", Redirect("c"))),
                 ("c", PageInfo("C", Content({})))];
    assert DistinctNames(site);
    assert site[1].0 == "b" && site[2].0 == "c";
    assert Lookup(site, "b") == Some(site[1].1);
    assert Lookup(site, "c") == Some(site[2].1);
    PlainChainUncounted(canon, site, site[0].1);
    assert DoubleEntry(canon, site, site[1].1) == Nothing;
    assert DoubleEntry(canon, site, site[2].1) == Nothing;
  }

  /** How many of the indices below `n` satisfy `p`, counted one by one. */
  function CountWhere(p: int -> bool, n: nat): nat {
    if n == 0 then 0 else CountWhere(p, n - 1) + (if p(n - 1) then 1 else 0)
  }

  /** The indices below `n` that satisfy `p`, collected one by one; there are
      as many as `CountWhere` counts. */
  function Where(p: int -> bool, n: nat): (s: set<int>)
    ensures forall i :: i in s <==> 0 <= i < n && p(i)
    ensures |s| == CountWhere(p, n)
  {
    if n == 0 then {}
    else if p(n - 1) then Where(p, n - 1) + {n - 1}
    else Where(p, n - 1)
  }

  /** Counting one by one gives the size of the set of such indices. */
  lemma CountWhereIsSize(p: int -> bool, n: nat)
    ensures CountWhere(p, n) == |set i | 0 <= i < n && p(i)|
  {
    var s := Where(p, n);
    assert s == set i | 0 <= i < n && p(i);
  }

  /** The loop with the count its report evidently means: one for every page
      that starts a chain, whether or not the chain goes on. */
  method CountChains(canon: string -> string, site: Site) returns (count: nat, lines: seq<string>)
    ensures lines == DoubleReport(canon, site, |site|)
    ensures count == |set i | 0 <= i < |site| && StartsChain(canon, site, site[i].1)|
  {
    ghost var starts := (i: int) => 0 <= i < |site| && StartsChain(canon, site, site[i].1);
    count := 0;
    lines := [];
    for i := 0 to |site|
      invariant lines == DoubleReport(canon, site, i)
      invariant count == CountWhere(starts, i)
    {
      var entry := DoubleEntry(canon, site, site[i].1);
      DoubleEntryMeaning(canon, site, site[i].1);
      lines := lines + entry.lines;
      if entry.lines != [] {
        count := count + 1;
      }
    }
    CountWhereIsSize(starts, |site|);
    assert (set i | 0 <= i < |site| && starts(i)) == (set i | 0 <= i < |site| && StartsChain(canon, site, site[i].1));
  }

  // ---------------------------------------------------------------------------
  // Redirects to names that are not pages

  /** The line for one page, if any: its title and the Wikidot form of its
      destination. */
  function MissingEntry(canon: string -> string, site: Site, info: PageInfo): seq<string> {
    match info.page
    case Content(_) => []
    case Redirect(target) =>
      if canon(target) !in Names(site) then [info.title + Arrow + canon(target)] else []
  }

  /** The lines written for the first `n` pages of the site. */
  function MissingReport(canon: string -> string, site: Site, n: nat): seq<string>
    requires n <= |site|
  {
    if n == 0 then [] else MissingReport(canon, site, n - 1) + MissingEntry(canon, site, site[n - 1].1)
  }

  /** The loop over the site that lists redirects whose destination is not a
      page, and counts them. */
  method MissingTargets(canon: string -> string, site: Site) returns (count: nat, lines: seq<string>)
    ensures lines == MissingReport(canon, site, |site|)
    ensures count == |lines|
  {
    count := 0;
    lines := [];
    for i := 0 to |site|
      invariant lines == MissingReport(canon, site, i) && count == |lines|
    {
      var (key, val) := site[i];
      if val.page.Redirect? {
        var pageT := val.title;
        var pageCR := canon(val.page.target);
        if pageCR !in Names(site) {
          lines := lines + [pageT + Arrow + pageCR];
          count := count + 1;
        }
      }
    }
  }

  /** A line is listed exactly for a redirect whose destination, in its
      Wikidot form, names no page. */
  lemma {:induction false} MissingListed(canon: string -> string, site: Site, n: nat, line: string)
    requires n <= |site|
    ensures line in MissingReport(canon, site, n) <==>
              exists i :: 0 <= i < n && site[i].1.page.Redirect?
                          && canon(site[i].1.page.target) !in Names(site)
                          && line == site[i].1.title + Arrow + canon(site[i].1.page.target)
  {
    if n > 0 {
      MissingListed(canon, site, n - 1, line);
    }
  }

  /** A redirect to a missing page starts no chain. */
  lemma MissingStartsNoChain(canon: string -> string, site: Site, info: PageInfo)
    requires MissingEntry(canon, site, info) != []
    ensures DoubleEntry(canon, site, info) == Nothing
  {
  }

  /** When a chain breaks at its second step, the page in the middle is
      listed among the redirects to missing pages. */
  lemma BrokenChainListed(canon: string -> string, site: Site, info: PageInfo)
    requires StartsChain(canon, site, info)
    requires Lookup(site, canon(Lookup(site, canon(info.page.target)).value.page.target)).None?
    ensures var second := Lookup(site, canon(info.page.target)).value;
            second.title + Arrow + canon(second.page.target) in MissingReport(canon, site, |site|)
  {
    var second := Lookup(site, canon(info.page.target)).value;
    var j :| 0 <= j < |site| && site[j] == (canon(info.page.target), second);
    MissingListed(canon, site, |site|, second.title + Arrow + canon(second.page.target));
  }
}
