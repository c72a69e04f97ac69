/**
 * One page of the Wikidot dump: the redirect recogniser, the scan for
 * `[[[link|display]]]` links, and the page record built from a page source.
 */
module Pages {
  import opened Text

  /** A page is either a content page with the set of link texts it uses, or a
      redirect naming its destination; never both. */
  datatype Page = Content(links: set<string>) | Redirect(target: string)

  datatype PageInfo = PageInfo(title: string, page: Page)

  /** The loaded site in dictionary iteration order: (page name, record). */
  type Site = seq<(string, PageInfo)>

  /** Dictionary keys are unique. */
  predicate DistinctNames(site: Site) {
    forall i, j :: 0 <= i < j < |site| ==> site[i].0 != site[j].0
  }

  /** `site.keys()`. */
  function Names(site: Site): set<string> {
    set i | 0 <= i < |site| :: site[i].0
  }

  /** `site[name]`, or None when `name not in site.keys()`. */
  function Lookup(site: Site, name: string): (r: Option<PageInfo>)
    ensures r.None? <==> name !in Names(site)
    ensures r.Some? ==> exists i :: 0 <= i < |site| && site[i] == (name, r.value)
    ensures DistinctNames(site) ==>
              forall i :: 0 <= i < |site| && site[i].0 == name ==> r == Some(site[i].1)
  {
    if site == [] then None
    else if site[0].0 == name then Some(site[0].1)
    else
      var r := Lookup(site[1..], name);
      assert Names(site) == {site[0].0} + Names(site[1..]) by {
        forall n | n in Names(site) ensures n in {site[0].0} + Names(site[1..]) {
          var i :| 0 <= i < |site| && site[i].0 == n;
          if i > 0 { assert site[1..][i - 1].0 == n; }
        }
      }
      assert r.Some? ==> exists i :: 0 <= i < |site| && site[i] == (name, r.value) by {
        if r.Some? {
          var i :| 0 <= i < |site[1..]| && site[1..][i] == (name, r.value);
          assert site[i + 1] == (name, r.value);
        }
      }
      assert DistinctNames(site) ==> DistinctNames(site[1..]) by {
        if DistinctNames(site) {
          forall i, j | 0 <= i < j < |site[1..]| ensures site[1..][i].0 != site[1..][j].0 {
            assert site[1..][i] == site[i + 1] && site[1..][j] == site[j + 1];
          }
        }
      }
      assert DistinctNames(site) ==>
        forall i :: 0 <= i < |site| && site[i].0 == name ==> r == Some(site[i].1) by {
        if DistinctNames(site) {
          forall i | 0 <= i < |site| && site[i].0 == name ensures r == Some(site[i].1) {
            assert i > 0;
            assert site[1..][i - 1] == site[i];
          }
        }
      }
      r
  }

  // ---------------------------------------------------------------------------
  // Redirect pages

  /** The directive a redirect page consists of, matched without regard to case. */
  const RedirectPrefix: string := "[[module redirect destination=\""

  /** The directive ends with a quote and two closing brackets. */
  const RedirectSuffix: string := "\"]]"

  /** The characters `rstrip('"]')` removes. */
  const QuoteOrBracket: set<char> := {'"', ']'}

  /** `t.lower().startswith(p)` looks at the first `|p|` characters only. */
  lemma LowerPrefix(t: string, n: nat)
    requires n <= |t|
    ensures Lower(t)[..n] == Lower(t[..n])
  {
  }

  /** `IsRedirect`: the destination named by a redirect directive, or None. */
  function IsRedirect(pageText: string): Option<string> {
    DirectiveIn(Strip(pageText))
  }

  /** The tests `IsRedirect` makes on the page text once it is trimmed. */
  function DirectiveIn(t: string): Option<string> {
    if StartsWith(Lower(t), RedirectPrefix) && EndsWith(t, RedirectSuffix) then
      Some(RStripChars(t[31..], QuoteOrBracket))
    else
      None
  }

  /** `IsRedirect` returns a value exactly when the trimmed page starts, in any
      case, with the 31-character directive and ends with `"]]`. */
  lemma RedirectRecognised(pageText: string)
    ensures |RedirectPrefix| == 31
    ensures var t := Strip(pageText);
            IsRedirect(pageText).Some? <==>
              && |t| >= 31 && Lower(t[..31]) == RedirectPrefix
              && |t| >= 3 && t[|t| - 3..] == RedirectSuffix
  {
    var t := Strip(pageText);
    if |t| >= 31 {
      LowerPrefix(t, 31);
    }
  }

  /** The value is the text after the directive with the trailing quotes and
      brackets removed: a prefix of that text, followed only by `"` and `]`. */
  lemma RedirectValue(pageText: string)
    requires IsRedirect(pageText).Some?
    ensures var t := Strip(pageText);
            var v := IsRedirect(pageText).value;
            && 31 + |v| <= |t|
            && t[31..31 + |v|] == v
            && (forall i :: 31 + |v| <= i < |t| ==> t[i] in QuoteOrBracket)
            && (v == [] || v[|v| - 1] !in QuoteOrBracket)
  {
    var t := Strip(pageText);
    var v := IsRedirect(pageText).value;
    assert t[31..][..|v|] == t[31..31 + |v|];
    forall i | 31 + |v| <= i < |t| ensures t[i] in QuoteOrBracket {
      assert t[i] == t[31..][i - 31];
    }
  }

  lemma {:induction false} StripPaddedLeft(lead: string, x: string)
    requires AllSpace(lead)
    ensures Strip(lead + x) == Strip(x)
    decreases |lead|
  {
    if lead == [] {
      assert lead + x == x;
    } else {
      assert lead + x == [lead[0]] + (lead[1..] + x);
      StripPadLeft(lead[0], lead[1..] + x);
      StripPaddedLeft(lead[1..], x);
    }
  }

  lemma {:induction false} StripPaddedRight(x: string, trail: string)
    requires AllSpace(trail)
    ensures Strip(x + trail) == Strip(x)
    decreases |trail|
  {
    if trail == [] {
      assert x + trail == x;
    } else {
      var rest := trail[..|trail| - 1];
      assert x + trail == (x + rest) + [trail[|trail| - 1]];
      StripPadRight(x + rest, trail[|trail| - 1]);
      StripPaddedRight(x, rest);
    }
  }

  /** Whitespace around the page text never changes what `IsRedirect` says. */
  lemma RedirectPadding(lead: string, x: string, trail: string)
    requires AllSpace(lead) && AllSpace(trail)
    ensures IsRedirect(lead + x + trail) == IsRedirect(x)
  {
    StripPaddedRight(lead + x, trail);
    StripPaddedLeft(lead, x);
  }

  lemma RStripDirectiveEnd(dest: string)
    requires dest == [] || dest[|dest| - 1] !in QuoteOrBracket
    ensures RStripChars(dest + RedirectSuffix, QuoteOrBracket) == dest
  {
    assert (dest + RedirectSuffix)[..|dest| + 2] == dest + "\"]";
    assert (dest + "\"]")[..|dest| + 1] == dest + "\"";
    assert (dest + "\"")[..|dest|] == dest;
  }

  /** A directive written with any capitalisation of its keyword part gives back
      exactly the destination written in it, as long as that destination does
      not itself end in `"` or `]`. */
  lemma DirectiveRoundTrip(directive: string, dest: string)
    requires Lower(directive) == RedirectPrefix
    requires dest == [] || dest[|dest| - 1] !in QuoteOrBracket
    ensures IsRedirect(directive + dest + RedirectSuffix) == Some(dest)
  {
    var x := directive + dest + RedirectSuffix;
    assert |directive| == 31;
    assert x[0] == directive[0] == '[' by {
      assert Lower(directive)[0] == ToLower(directive[0]) == '[';
    }
    assert x[|x| - 1] == ']';
    StripStripped(x);
    DirectiveParts(directive, dest);
  }

  lemma DirectiveStarts(directive: string, rest: string)
    requires Lower(directive) == RedirectPrefix
    ensures StartsWith(Lower(directive + rest), RedirectPrefix)
  {
    var x := directive + rest;
    LowerPrefix(x, |directive|);
    assert x[..|directive|] == directive;
  }

  lemma DirectiveEnds(front: string)
    ensures EndsWith(front + RedirectSuffix, RedirectSuffix)
  {
    var x := front + RedirectSuffix;
    assert x[|x| - |RedirectSuffix|..] == RedirectSuffix;
  }

  lemma DirectiveParts(directive: string, dest: string)
    requires Lower(directive) == RedirectPrefix
    requires dest == [] || dest[|dest| - 1] !in QuoteOrBracket
    ensures DirectiveIn(directive + dest + RedirectSuffix) == Some(dest)
  {
    var x := directive + dest + RedirectSuffix;
    assert |directive| == 31;
    DirectiveStarts(directive, dest + RedirectSuffix);
    assert directive + (dest + RedirectSuffix) == x;
    DirectiveEnds(directive + dest);
    assert x[31..] == dest + RedirectSuffix;
    RStripDirectiveEnd(dest);
  }

  /** The same, with any whitespace around the directive. */
  lemma RedirectRoundTrip(lead: string, directive: string, dest: string, trail: string)
    requires AllSpace(lead) && AllSpace(trail)
    requires Lower(directive) == RedirectPrefix
    requires dest == [] || dest[|dest| - 1] !in QuoteOrBracket
    ensures IsRedirect(lead + (directive + dest + RedirectSuffix) + trail) == Some(dest)
  {
    var x := directive + dest + RedirectSuffix;
    StripPaddedRight(lead + x, trail);
    StripPaddedLeft(lead, x);
    DirectiveRoundTrip(directive, dest);
  }

  // ---------------------------------------------------------------------------
  // Links

  /** `raw[:raw.find("|")]` when `raw` contains `|`, `raw` otherwise. */
  function CutAtBar(raw: string): (cut: string)
    ensures |cut| <= |raw| && cut == raw[..|cut|]
    ensures forall i :: 0 <= i < |cut| ==> cut[i] != '|'
    ensures |cut| < |raw| ==> raw[|cut|] == '|'
  {
    FindSpec(raw, "|", 0);
    var bar := Find(raw, "|", 0);
    var cut := if bar >= 0 then raw[..bar] else raw;
    assert forall i :: 0 <= i < |cut| ==> cut[i] != '|' by {
      forall i | 0 <= i < |cut| ensures cut[i] != '|' {
        assert raw[i..i + 1] == [raw[i]];
        assert !OccursAt(raw, "|", i);
      }
    }
    assert bar >= 0 ==> raw[bar..bar + 1] == "|";
    cut
  }

  /** The link part of the text between `[[[` and `]]]`: what precedes the first
      `|`, with surrounding whitespace removed. */
  function LinkText(raw: string): (l: string)
    ensures forall i :: 0 <= i < |l| ==> l[i] != '|'
    ensures l == [] || (!IsSpace(l[0]) && !IsSpace(l[|l| - 1]))
  {
    var cut := CutAtBar(raw);
    StripIsSlice(cut);
    assert forall i :: 0 <= i < |Strip(cut)| ==> Strip(cut)[i] == cut[LeadingSpace(cut) + i];
    Strip(cut)
  }

  /** A span opened by `[[[` at `i` and closed by the first `]]]` at or after
      `i`, which starts at `j`. */
  predicate SpanAt(source: string, i: int, j: int) {
    && OccursAt(source, "[[[", i)
    && OccursAt(source, "]]]", j)
    && i + 3 <= j
    && forall k :: i <= k < j ==> !OccursAt(source, "]]]", k)
  }

  /** What the scan looks at first: the first `[[[`, and the first `]]]` at or
      after it; the `]]]` never overlaps the `[[[`. */
  lemma FirstSpan(s: string)
    ensures var loc := Find(s, "[[[", 0);
            loc == -1 ==> forall k :: !OccursAt(s, "[[[", k)
    ensures var loc := Find(s, "[[[", 0);
            loc != -1 ==>
              && OccursAt(s, "[[[", loc)
              && (forall k :: 0 <= k < loc ==> !OccursAt(s, "[[[", k))
              && var loc2 := Find(s, "]]]", loc);
                 (loc2 == -1 ==> forall k :: loc <= k ==> !OccursAt(s, "]]]", k))
                 && (loc2 != -1 ==> SpanAt(s, loc, loc2))
  {
    var loc := Find(s, "[[[", 0);
    FindSpec(s, "[[[", 0);
    if loc != -1 {
      var loc2 := Find(s, "]]]", loc);
      FindSpec(s, "]]]", loc);
      Occurs3(s, "[[[", loc);
      if loc2 != -1 {
        Occurs3(s, "]]]", loc2);
      }
    }
  }

  /** Reference definition of the links of a page source: the link text of the
      first `[[[ ... ]]]` span, then the links of what follows that span's
      `]]]` (the `]]]` itself included). */
  function LinksIn(source: string): set<string>
    decreases |source|
  {
    if |source| == 0 then {}
    else
      FirstSpan(source);
      var loc := Find(source, "[[[", 0);
      if loc == -1 then {}
      else
        var loc2 := Find(source, "]]]", loc);
        if loc2 == -1 then {}
        else {LinkText(source[loc + 3..loc2])} + LinksIn(source[loc2..])
  }

  /** `l` is the link text of the span from `i` to `j`. */
  predicate LinkAt(source: string, i: int, j: int, l: string) {
    SpanAt(source, i, j) && l == LinkText(source[i + 3..j])
  }

  /** Occurrences in a suffix are occurrences in the whole string, shifted. */
  lemma OccursInSuffix(s: string, pat: string, d: nat, k: nat)
    requires d <= |s|
    ensures OccursAt(s[d..], pat, k) <==> OccursAt(s, pat, k + d)
  {
    if k + |pat| <= |s| - d {
      assert s[d..][k..k + |pat|] == s[k + d..k + d + |pat|];
    }
  }

  lemma LinkAtSuffix(source: string, d: nat, i: int, j: int, l: string)
    requires d <= |source|
    requires LinkAt(source[d..], i, j, l)
    ensures LinkAt(source, i + d, j + d, l)
  {
    OccursInSuffix(source, "[[[", d, i);
    OccursInSuffix(source, "]]]", d, j);
    forall k | i + d <= k < j + d ensures !OccursAt(source, "]]]", k) {
      OccursInSuffix(source, "]]]", d, k - d);
    }
    assert source[d..][i + 3..j] == source[i + d + 3..j + d];
  }

  /** Every collected link is the trimmed text before the first `|` of a span
      between a `[[[` and the next `]]]`. */
  lemma {:induction false} LinksAreDelimited(source: string, l: string)
    requires l in LinksIn(source)
    ensures exists i, j :: LinkAt(source, i, j, l)
    decreases |source|
  {
    FirstSpan(source);
    var loc := Find(source, "[[[", 0);
    var loc2 := Find(source, "]]]", loc);
    if l == LinkText(source[loc + 3..loc2]) {
      assert LinkAt(source, loc, loc2, l);
    } else {
      LinksAreDelimited(source[loc2..], l);
      var i, j :| LinkAt(source[loc2..], i, j, l);
      LinkAtSuffix(source, loc2, i, j, l);
    }
  }

  /** A substring of a string without `]]]` has no `]]]` either. */
  lemma SliceNoClose(s: string, k: nat, t: string)
    requires k + |t| <= |s| && t == s[k..k + |t|]
    requires forall m :: k <= m <= k + |t| - 3 ==> !OccursAt(s, "]]]", m)
    ensures forall m :: !OccursAt(t, "]]]", m)
  {
    forall m ensures !OccursAt(t, "]]]", m) {
      if 0 <= m && m + 3 <= |t| {
        assert t[m] == s[k + m] && t[m + 1] == s[k + m + 1] && t[m + 2] == s[k + m + 2];
        Occurs3(s, "]]]", k + m);
        Occurs3(t, "]]]", m);
      }
    }
  }

  /** The link of a span contains neither `|` nor `]]]`. */
  lemma LinkAtShape(source: string, i: int, j: int, l: string)
    requires LinkAt(source, i, j, l)
    ensures forall k :: 0 <= k < |l| ==> l[k] != '|'
    ensures forall m :: !OccursAt(l, "]]]", m)
  {
    var span := source[i + 3..j];
    var cut := CutAtBar(span);
    StripIsSlice(cut);
    var a := LeadingSpace(cut);
    assert l == source[i + 3 + a..i + 3 + a + |l|] by {
      assert l == cut[a..a + |l|];
      forall m | 0 <= m < |l| ensures l[m] == source[i + 3 + a + m] {
        assert l[m] == cut[a + m] == span[a + m];
      }
    }
    SliceNoClose(source, i + 3 + a, l);
  }

  /** A collected link never contains `|` and never contains `]]]`. */
  lemma LinkShape(source: string, l: string)
    requires l in LinksIn(source)
    ensures forall i :: 0 <= i < |l| ==> l[i] != '|'
    ensures !Contains(l, "]]]")
  {
    LinksAreDelimited(source, l);
    var i, j :| LinkAt(source, i, j, l);
    LinkAtShape(source, i, j, l);
    ContainsIff(l, "]]]");
  }

  /** A page with a `[[[` followed somewhere by `]]]` has at least one link, and
      a page with a link has such a pair. */
  lemma LinkFound(source: string)
    ensures LinksIn(source) != {} <==>
              exists i, j :: i <= j && OccursAt(source, "[[[", i) && OccursAt(source, "]]]", j)
  {
    FirstSpan(source);
    if LinksIn(source) != {} {
      var l :| l in LinksIn(source);
      LinksAreDelimited(source, l);
      var i, j :| LinkAt(source, i, j, l);
      assert i <= j && OccursAt(source, "[[[", i) && OccursAt(source, "]]]", j);
    } else {
      forall i, j | i <= j && OccursAt(source, "[[[", i)
        ensures !OccursAt(source, "]]]", j)
      {
        var loc := Find(source, "[[[", 0);
        assert |source| > 0;
        assert loc != -1;
        assert Find(source, "]]]", loc) == -1;
      }
    }
  }

  /** The scan of `LoadPage`: repeatedly find `[[[`, then the next `]]]`, keep
      the text between them up to any `|`, trimmed, and continue from the `]]]`. */
  method ScanLinks(source: string) returns (links: set<string>)
    ensures links == LinksIn(source)
    ensures forall l :: l in links ==> exists i, j :: LinkAt(source, i, j, l)
    ensures forall l :: l in links ==> !Contains(l, "]]]") && forall i :: 0 <= i < |l| ==> l[i] != '|'
  {
    links := {};
    var rest := source;
    while |rest| > 0
      invariant links + LinksIn(rest) == LinksIn(source)
      decreases |rest|
    {
      FirstSpan(rest);
      var loc := Find(rest, "[[[", 0);
      if loc == -1 {
        break;
      }
      var loc2 := Find(rest, "]]]", loc);
      if loc2 == -1 {
        break;
      }
      var link := rest[loc + 3..loc2];
      FindSpec(link, "|", 0);
      if Contains(link, "|") {
        link := link[..Find(link, "|", 0)];
      }
      links := links + {Strip(link)};
      rest := rest[loc2..];
    }
    LinksFacts(source);
  }

  lemma LinksFacts(source: string)
    ensures forall l :: l in LinksIn(source) ==> exists i, j :: LinkAt(source, i, j, l)
    ensures forall l :: l in LinksIn(source) ==>
              !Contains(l, "]]]") && forall i :: 0 <= i < |l| ==> l[i] != '|'
  {
    forall l | l in LinksIn(source)
      ensures (exists i, j :: LinkAt(source, i, j, l)) && !Contains(l, "]]]")
    {
      LinksAreDelimited(source, l);
      LinkShape(source, l);
    }
  }

  /** `LoadPage` after the page's title and decoded source are read: a
      redirect when the recogniser returns a non-empty destination, a content
      page with the links of the scan otherwise. */
  method LoadPage(title: string, source: string) returns (info: PageInfo)
    ensures info.title == title
    ensures info.page.Redirect? <==> IsRedirect(source).Some? && IsRedirect(source).value != ""
    ensures info.page.Redirect? ==> IsRedirect(source) == Some(info.page.target)
    ensures info.page.Content? ==> info.page.links == LinksIn(source)
  {
    var redirect := IsRedirect(source);
    if redirect.Some? && redirect.value != "" {
      return PageInfo(title, Redirect(redirect.value));
    }
    var links := ScanLinks(source);
    info := PageInfo(title, Content(links));
  }
}
