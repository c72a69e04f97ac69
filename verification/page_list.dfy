/**
 * `FormatPageList`: the one-line summary of the pages that link to a name,
 * showing at most four of them.
 */
module PageList {
  import opened Text

  /** At most this many referring pages are named in a summary. */
  const MaxPages: nat := 4

  function Min(a: int, b: int): int { if a <= b then a else b }

  function Quoted(p: string): (q: string)
    ensures |q| == |p| + 2 && q[0] == '\'' && q[|q| - 1] == '\''
  {
    "'" + p + "'"
  }

  /** The quoted names joined by a comma and two spaces. */
  function Joined(ps: seq<string>): string
    decreases |ps|
  {
    if ps == [] then ""
    else if |ps| == 1 then Quoted(ps[0])
    else Quoted(ps[0]) + ",  " + Joined(ps[1..])
  }

  /** The tail added when more pages refer to the name than are shown. */
  function MoreTail(n: nat): string {
    ",  plus " + Decimal(n) + " more..."
  }

  /** The referring pages named in a summary: the first four. */
  function Shown(pages: seq<string>): seq<string> {
    pages[..Min(MaxPages, |pages|)]
  }

  /** What follows the names: nothing, or how many pages were not named. */
  function Tail(n: nat): string {
    if n > MaxPages then MoreTail(n - MaxPages) else ""
  }

  /** The summary for the list of referring pages `pages`. */
  function Summary(pages: seq<string>): string {
    Joined(Shown(pages)) + Tail(|pages|)
  }

  /** Joining one more name at the end adds the separator and that name. */
  lemma {:induction false} JoinedSnoc(ps: seq<string>, p: string)
    requires ps != []
    ensures Joined(ps + [p]) == Joined(ps) + ",  " + Quoted(p)
    decreases |ps|
  {
    var sep, q0, q := ",  ", Quoted(ps[0]), Quoted(p);
    if |ps| == 1 {
      assert (ps + [p])[1..] == [p];
      assert Joined(ps + [p]) == q0 + sep + q;
    } else {
      var rest := ps[1..];
      assert (ps + [p])[1..] == rest + [p];
      JoinedSnoc(rest, p);
      var j := Joined(rest);
      assert Joined(ps + [p]) == q0 + sep + (j + sep + q);
      assert Joined(ps) == q0 + sep + j;
      assert q0 + sep + (j + sep + q) == (q0 + sep + j) + sep + q;
    }
  }

  /** `FormatPageList(inverseSite, key)`: the first four referring pages, each
      in single quotes and separated by `",  "`, then how many more there are. */
  method FormatPageList(inverseSite: map<string, seq<string>>, key: string) returns (line: string)
    requires key in inverseSite
    ensures line == Summary(inverseSite[key])
  {
    ghost var all := inverseSite[key];
    var maxPages := 4;
    var pages := inverseSite[key];
    line := "";
    for i := 0 to Min(maxPages, |pages|)
      invariant line == Joined(pages[..i])
    {
      if i > 0 {
        JoinedSnoc(pages[..i], pages[i]);
        line := line + ",  ";
      }
      assert pages[..i + 1] == pages[..i] + [pages[i]];
      line := line + "'" + pages[i] + "'";
    }
    assert pages[..Min(maxPages, |pages|)] == Shown(all);
    if |pages| > maxPages {
      line := line + ",  plus " + Decimal(|pages| - maxPages) + " more...";
    }
  }

  // ---------------------------------------------------------------------------
  // What a summary says

  /** A non-empty join starts and ends with a quote. */
  lemma {:induction false} JoinedEnds(ps: seq<string>)
    ensures ps == [] <==> Joined(ps) == []
    ensures ps != [] ==> Joined(ps)[0] == '\'' && Joined(ps)[|Joined(ps)| - 1] == '\''
    decreases |ps|
  {
    if |ps| > 1 {
      JoinedEnds(ps[1..]);
    }
  }

  /** Every name of the list appears, quoted, in the join. */
  lemma {:induction false} JoinedShows(ps: seq<string>, k: int)
    requires 0 <= k < |ps|
    ensures exists at :: OccursAt(Joined(ps), Quoted(ps[k]), at)
    decreases |ps|
  {
    var q := Quoted(ps[k]);
    if k == 0 {
      assert q[0..|q|] == q;
      assert OccursAt(q, q, 0);
      if |ps| > 1 {
        OccursInLonger(q, ",  " + Joined(ps[1..]), q, 0);
        assert Joined(ps) == q + (",  " + Joined(ps[1..]));
      }
      assert OccursAt(Joined(ps), q, 0);
    } else {
      JoinedShows(ps[1..], k - 1);
      assert ps[1..][k - 1] == ps[k];
      var at :| OccursAt(Joined(ps[1..]), q, at);
      var head := Quoted(ps[0]) + ",  ";
      assert Joined(ps) == head + Joined(ps[1..]);
      OccursAfter(head, Joined(ps[1..]), q, at);
    }
  }

  /** The summary is empty exactly when no page refers to the name. */
  lemma SummaryEmpty(pages: seq<string>)
    ensures Summary(pages) == "" <==> pages == []
  {
    JoinedEnds(Shown(pages));
  }

  /** The summary ends with `" more..."` exactly when more than four pages refer
      to the name, and then it tells how many were left out. */
  lemma SummaryMore(pages: seq<string>)
    ensures EndsWith(Summary(pages), " more...") <==> |pages| > MaxPages
    ensures |pages| > MaxPages ==> EndsWith(Summary(pages), MoreTail(|pages| - MaxPages))
  {
    var shown := Joined(Shown(pages));
    var r := Summary(pages);
    if |pages| > MaxPages {
      var tail := MoreTail(|pages| - MaxPages);
      assert r == shown + tail;
      assert r[|r| - |tail|..] == tail;
      assert tail[|tail| - 8..] == " more...";
      assert r[|r| - 8..] == tail[|tail| - 8..];
    } else {
      JoinedEnds(Shown(pages));
      assert r == shown;
      if |r| >= 8 {
        assert r[|r| - 8..][7] == r[|r| - 1] == '\'';
      }
    }
  }

  /** Each of the first four referring pages is named in the summary. */
  lemma SummaryShows(pages: seq<string>, k: int)
    requires 0 <= k < Min(MaxPages, |pages|)
    ensures exists at :: OccursAt(Summary(pages), Quoted(pages[k]), at)
  {
    var shown := Shown(pages);
    var q := Quoted(pages[k]);
    JoinedShows(shown, k);
    assert shown[k] == pages[k];
    var j := Joined(shown);
    var at :| OccursAt(j, q, at);
    OccursInLonger(j, Tail(|pages|), q, at);
    assert OccursAt(Summary(pages), q, at);
  }
}
