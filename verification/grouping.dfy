/**
 * The report of names that Wikidot reads as one page but MediaWiki reads as
 * several: the scan over the sorted keys of the inverted map that keeps an
 * outer key (Wikidot form), an inner key (MediaWiki form), the lines saved
 * for the current group and a count of the groups written out.
 */
module Grouping {
  import opened MediaWiki
  import opened PageList
  import KeyOrder

  /** The outer and inner keys the scan starts from. */
  const OuterSentinel: string := "nonsense"
  const InnerSentinel: string := "random string"

  function Last<T>(s: seq<T>): T
    requires s != []
  {
    s[|s| - 1]
  }

  function Init<T>(s: seq<T>): seq<T>
    requires s != []
  {
    s[..|s| - 1]
  }

  lemma InitLast<T>(s: seq<T>)
    requires s != []
    ensures Init(s) + [Last(s)] == s
  {
  }

  lemma PrefixStep<T>(s: seq<T>, i: int)
    requires 0 <= i < |s|
    ensures s[..i + 1] == s[..i] + [s[i]]
  {
  }

  /** The referring pages of `key`; the scan only meets keys of the map. */
  function PagesOf(idx: map<string, seq<string>>, key: string): seq<string> {
    if key in idx then idx[key] else []
  }

  /** `"'" + key + "' <=== " + FormatPageList(inverseSite, key)`: the line a
      new MediaWiki form starts. */
  function Opening(idx: map<string, seq<string>>, key: string): (line: string)
    ensures line != "" && line[0] == '\''
  {
    "'" + key + "' <=== " + Summary(PagesOf(idx, key))
  }

  /** The variables of the scan. `report` holds the lines written to the
      report file, in order. */
  datatype ScanState = ScanState(
    outerKey: string,
    innerKey: string,
    savedLinesArray: seq<string>,
    savedLine: string,
    count: nat,
    report: seq<string>)

  const Start: ScanState := ScanState(OuterSentinel, InnerSentinel, [], "", 0, [])

  /** The lines written for a group: a blank line and the group's first key,
      then the group's lines. */
  function Written(outerKey: string, lines: seq<string>): seq<string> {
    ["\n" + outerKey] + lines
  }

  /** Writing out the group under `outerKey` when it has saved lines. */
  function Flush(st: ScanState): ScanState {
    if |st.savedLinesArray| > 0 && |st.savedLine| > 0 then
      st.(count := st.count + 1,
          report := st.report + Written(st.outerKey, st.savedLinesArray + [st.savedLine]))
    else st
  }

  /** One iteration of the scan, as written. */
  function ScanStep(canon: string -> string, idx: map<string, seq<string>>, st: ScanState, key: string): ScanState {
    if canon(st.outerKey) != canon(key) then
      var f := Flush(st);
      ScanState(key, key, [], Opening(idx, key), f.count, f.report)
    else if MediawikiForm(st.innerKey) == MediawikiForm(key) then
      st.(savedLine := st.savedLine + Summary(PagesOf(idx, key)))
    else
      st.(savedLinesArray := st.savedLinesArray + [st.savedLine],
          savedLine := Opening(idx, key),
          innerKey := key)
  }

  /** The state after the scan has met `keys`, starting from the sentinels. */
  function Scan(canon: string -> string, idx: map<string, seq<string>>, keys: seq<string>): ScanState
    decreases |keys|
  {
    if keys == [] then Start
    else ScanStep(canon, idx, Scan(canon, idx, Init(keys)), Last(keys))
  }

  /** The scan over the sorted keys, as written: the outer key changes when
      the Wikidot form changes, the inner key when the MediaWiki form
      changes; the lines of a group are written when the next group begins
      and the group had more than one MediaWiki form. Nothing is written
      after the last key. */
  method ReportMultipleForms(canon: string -> string, inverseSite: map<string, seq<string>>, inverseKeys: seq<string>)
    returns (count: nat, report: seq<string>)
    requires forall k :: k in inverseKeys ==> k in inverseSite
    ensures count == Scan(canon, inverseSite, inverseKeys).count
    ensures report == Scan(canon, inverseSite, inverseKeys).report
  {
    var outerKey := "nonsense";
    var innerKey := "random string";
    var savedLinesArray: seq<string> := [];
    var savedLine := "";
    count := 0;
    report := [];
    for i := 0 to |inverseKeys|
      invariant ScanState(outerKey, innerKey, savedLinesArray, savedLine, count, report)
                == Scan(canon, inverseSite, inverseKeys[..i])
    {
      var key := inverseKeys[i];
      assert Init(inverseKeys[..i + 1]) == inverseKeys[..i];
      if canon(outerKey) != canon(key) {
        if |savedLinesArray| > 0 && |savedLine| > 0 {
          count := count + 1;
          savedLinesArray := savedLinesArray + [savedLine];
          report := report + ["\n" + outerKey] + savedLinesArray;
        }
        outerKey := key;
        innerKey := key;
        savedLinesArray := [];
        var pages := FormatPageList(inverseSite, key);
        savedLine := "'" + key + "' <=== " + pages;
        continue;
      }
      var innerForm := MediawikiCanonicize(innerKey);
      var keyForm := MediawikiCanonicize(key);
      if innerForm == keyForm {
        var pages := FormatPageList(inverseSite, key);
        savedLine := savedLine + pages;
        continue;
      }
      savedLinesArray := savedLinesArray + [savedLine];
      var pages := FormatPageList(inverseSite, key);
      savedLine := "'" + key + "' <=== " + pages;
      innerKey := key;
    }
    assert inverseKeys[..|inverseKeys|] == inverseKeys;
  }

  // ---------------------------------------------------------------------------
  // Reference definition: groups, runs and the lines of a group

  /** Adding `x` after the pieces: it joins the last piece when its image under
      `f` is that of the last piece's first member, and opens a piece
      otherwise. */
  function Attach(f: string -> string, parts: seq<seq<string>>, x: string): (r: seq<seq<string>>)
    requires parts != [] ==> Last(parts) != []
    ensures r != [] && Last(r) != []
  {
    if parts != [] && f(Last(parts)[0]) == f(x) then Init(parts) + [Last(parts) + [x]]
    else parts + [[x]]
  }

  lemma AttachJoins(f: string -> string, parts: seq<seq<string>>, x: string)
    requires parts != [] && Last(parts) != [] && f(Last(parts)[0]) == f(x)
    ensures var r := Attach(f, parts, x);
            Init(r) == Init(parts) && Last(r) == Last(parts) + [x]
  {
  }

  lemma AttachOpens(f: string -> string, parts: seq<seq<string>>, x: string)
    requires parts != [] ==> Last(parts) != []
    requires !(parts != [] && f(Last(parts)[0]) == f(x))
    ensures var r := Attach(f, parts, x);
            Init(r) == parts && Last(r) == [x]
  {
  }

  /** `s` cut into maximal pieces whose members share the image under `f` of
      the piece's first member. */
  function Split(f: string -> string, s: seq<string>): (parts: seq<seq<string>>)
    ensures s == [] <==> parts == []
    ensures parts != [] ==> Last(parts) != []
    decreases |s|
  {
    if s == [] then [] else Attach(f, Split(f, Init(s)), Last(s))
  }

  /** Splitting one more member attaches it to the pieces so far. */
  lemma SplitSnoc(f: string -> string, s: seq<string>, x: string)
    ensures Split(f, s + [x]) == Attach(f, Split(f, s), x)
  {
    assert Init(s + [x]) == s && Last(s + [x]) == x;
  }

  /** The pieces, put back together. */
  function Flatten(parts: seq<seq<string>>): seq<string>
    decreases |parts|
  {
    if parts == [] then [] else Flatten(Init(parts)) + Last(parts)
  }

  /** The groups of keys Wikidot reads as one name. */
  function Groups(canon: string -> string, keys: seq<string>): seq<seq<string>> {
    Split(canon, keys)
  }

  /** The runs of a group that MediaWiki reads as one name. */
  function Runs(group: seq<string>): seq<seq<string>> {
    Split(MediawikiForm, group)
  }

  /** The line of one run: its first key, then the summaries of all of its keys
      one after the other. */
  function RunLine(idx: map<string, seq<string>>, run: seq<string>): (line: string)
    ensures run != [] ==> line != []
    decreases |run|
  {
    if run == [] then ""
    else if |run| == 1 then Opening(idx, run[0])
    else RunLine(idx, Init(run)) + Summary(PagesOf(idx, Last(run)))
  }

  function RunLines(idx: map<string, seq<string>>, runs: seq<seq<string>>): (lines: seq<string>)
    ensures |lines| == |runs|
    decreases |runs|
  {
    if runs == [] then [] else RunLines(idx, Init(runs)) + [RunLine(idx, Last(runs))]
  }

  /** A group is reported when it holds more than one MediaWiki form. */
  predicate Reported(group: seq<string>) {
    |Runs(group)| >= 2
  }

  /** How many of `groups` are reported. */
  function CountReported(groups: seq<seq<string>>): nat
    decreases |groups|
  {
    if groups == [] then 0
    else CountReported(Init(groups)) + (if Reported(Last(groups)) then 1 else 0)
  }

  /** The lines written for one group: none, or a blank line with its first
      key followed by one line per run. */
  function GroupReport(idx: map<string, seq<string>>, g: seq<string>): seq<string> {
    if Reported(g) then Written(g[0], RunLines(idx, Runs(g))) else []
  }

  /** The report for `groups`, group after group. */
  function ReportOf(idx: map<string, seq<string>>, groups: seq<seq<string>>): seq<string>
    decreases |groups|
  {
    if groups == [] then [] else ReportOf(idx, Init(groups)) + GroupReport(idx, Last(groups))
  }

  /** The scan's variables once it has met the non-empty `keys` and the first
      key opened a group: the current group's first key, the current run's
      first key, the lines of the finished runs of the group, the line of the
      current run, and the count and report of the finished groups. */
  function Expected(canon: string -> string, idx: map<string, seq<string>>, keys: seq<string>): ScanState
    requires keys != []
  {
    var gs := Groups(canon, keys);
    var cur := Last(gs);
    var rs := Runs(cur);
    ScanState(cur[0], Last(rs)[0], RunLines(idx, Init(rs)), RunLine(idx, Last(rs)),
              CountReported(Init(gs)), ReportOf(idx, Init(gs)))
  }

  // ---------------------------------------------------------------------------
  // Facts about Split

  /** Splitting loses and reorders nothing. */
  lemma {:induction false} SplitFlatten(f: string -> string, s: seq<string>)
    ensures Flatten(Split(f, s)) == s
    decreases |s|
  {
    if s != [] {
      var parts := Split(f, Init(s));
      var x := Last(s);
      SplitFlatten(f, Init(s));
      var r := Split(f, s);
      if parts != [] && f(Last(parts)[0]) == f(x) {
        AttachJoins(f, parts, x);
        assert Flatten(r) == Flatten(Init(parts)) + (Last(parts) + [x]);
        assert Flatten(parts) == Flatten(Init(parts)) + Last(parts);
        assert Flatten(r) == Flatten(parts) + [x];
      } else {
        AttachOpens(f, parts, x);
        assert Flatten(r) == Flatten(parts) + [x];
      }
      assert s == Init(s) + [x];
    }
  }

  /** Every member of a piece has the image of the piece's first member. */
  lemma {:induction false} SplitAgree(f: string -> string, s: seq<string>, i: int, j: int)
    requires 0 <= i < |Split(f, s)| && 0 <= j < |Split(f, s)[i]|
    ensures f(Split(f, s)[i][j]) == f(Split(f, s)[i][0])
    decreases |s|
  {
    var r := Split(f, s);
    var parts := Split(f, Init(s));
    var x := Last(s);
    if parts != [] && f(Last(parts)[0]) == f(x) {
      AttachJoins(f, parts, x);
      if i < |r| - 1 {
        assert r[i] == Init(r)[i] == parts[i];
        SplitAgree(f, Init(s), i, j);
      } else if j < |Last(parts)| {
        assert r[i][j] == Last(parts)[j] && r[i][0] == Last(parts)[0];
        SplitAgree(f, Init(s), i, j);
      } else {
        assert r[i][j] == x && r[i][0] == Last(parts)[0];
      }
    } else {
      AttachOpens(f, parts, x);
      if i < |r| - 1 {
        assert r[i] == parts[i];
        SplitAgree(f, Init(s), i, j);
      }
    }
  }

  /** Neighbouring pieces start with different images. */
  lemma {:induction false} SplitBreaks(f: string -> string, s: seq<string>, i: int)
    requires 0 < i < |Split(f, s)|
    ensures Split(f, s)[i] != [] && Split(f, s)[i - 1] != []
    ensures f(Split(f, s)[i][0]) != f(Split(f, s)[i - 1][0])
    decreases |s|
  {
    var r := Split(f, s);
    var parts := Split(f, Init(s));
    var x := Last(s);
    if parts != [] && f(Last(parts)[0]) == f(x) {
      AttachJoins(f, parts, x);
      assert r[i - 1] == Init(r)[i - 1] == parts[i - 1];
      if i < |r| - 1 {
        assert r[i] == Init(r)[i] == parts[i];
      } else {
        assert i == |parts| - 1;
        assert parts[i] == Last(parts) && r[i] == Last(r);
      }
      SplitBreaks(f, Init(s), i);
    } else {
      AttachOpens(f, parts, x);
      assert r[i - 1] == parts[i - 1];
      if i < |r| - 1 {
        assert r[i] == parts[i];
        SplitBreaks(f, Init(s), i);
      } else {
        assert r[i] == [x];
        assert parts[i - 1] == Last(parts);
      }
    }
  }

  // ---------------------------------------------------------------------------
  // The scan follows the reference definition

  /** Writing out the current group completes the count. */
  lemma FlushCount(canon: string -> string, idx: map<string, seq<string>>, keys: seq<string>)
    requires keys != []
    ensures Flush(Expected(canon, idx, keys)).count == CountReported(Groups(canon, keys))
  {
    var st := Expected(canon, idx, keys);
    var gs := Groups(canon, keys);
    var cur := Last(gs);
    var rs := Runs(cur);
    assert st.savedLinesArray == RunLines(idx, Init(rs)) && st.savedLine == RunLine(idx, Last(rs));
    assert CountReported(gs) == CountReported(Init(gs)) + (if Reported(cur) then 1 else 0);
  }

  /** Writing out the current group completes the report. */
  lemma FlushReport(canon: string -> string, idx: map<string, seq<string>>, keys: seq<string>)
    requires keys != []
    ensures Flush(Expected(canon, idx, keys)).report == ReportOf(idx, Groups(canon, keys))
  {
    var st := Expected(canon, idx, keys);
    var gs := Groups(canon, keys);
    var cur := Last(gs);
    var rs := Runs(cur);
    var saved := RunLines(idx, Init(rs));
    var line := RunLine(idx, Last(rs));
    var before := ReportOf(idx, Init(gs));
    assert st.outerKey == cur[0] && st.savedLinesArray == saved && st.savedLine == line && st.report == before;
    assert ReportOf(idx, gs) == before + GroupReport(idx, cur);
    assert |saved| > 0 <==> Reported(cur);
    if Reported(cur) {
      assert RunLines(idx, rs) == saved + [line];
    } else {
      assert before + [] == before;
    }
  }

  /** Writing out the current group completes the count and the report. */
  lemma FlushExpected(canon: string -> string, idx: map<string, seq<string>>, keys: seq<string>)
    requires keys != []
    ensures Flush(Expected(canon, idx, keys)).count == CountReported(Groups(canon, keys))
    ensures Flush(Expected(canon, idx, keys)).report == ReportOf(idx, Groups(canon, keys))
  {
    FlushCount(canon, idx, keys);
    FlushReport(canon, idx, keys);
  }

  /** A key with another Wikidot form closes the group and opens a new one. */
  lemma NewGroupStep(canon: string -> string, idx: map<string, seq<string>>, keys: seq<string>, key: string)
    requires keys != []
    requires canon(Last(Groups(canon, keys))[0]) != canon(key)
    ensures ScanStep(canon, idx, Expected(canon, idx, keys), key) == Expected(canon, idx, keys + [key])
  {
    var gs := Groups(canon, keys);
    assert Init(keys + [key]) == keys && Last(keys + [key]) == key;
    AttachOpens(canon, gs, key);
    assert Runs([key]) == [[key]] by {
      assert Init([key]) == [] && Last([key]) == key;
    }
    FlushExpected(canon, idx, keys);
  }

  /** A key with the Wikidot form and the MediaWiki form of the current run
      adds its summary to the run's line. */
  lemma SameRunStep(canon: string -> string, idx: map<string, seq<string>>, keys: seq<string>, key: string)
    requires keys != []
    requires canon(Last(Groups(canon, keys))[0]) == canon(key)
    requires MediawikiForm(Last(Runs(Last(Groups(canon, keys))))[0]) == MediawikiForm(key)
    ensures ScanStep(canon, idx, Expected(canon, idx, keys), key) == Expected(canon, idx, keys + [key])
  {
    var gs := Groups(canon, keys);
    var cur := Last(gs);
    var rs := Runs(cur);
    var run := Last(rs);
    SplitSnoc(canon, keys, key);
    AttachJoins(canon, gs, key);
    var gs' := Groups(canon, keys + [key]);
    assert Init(gs') == Init(gs) && Last(gs') == cur + [key];
    SplitSnoc(MediawikiForm, cur, key);
    AttachJoins(MediawikiForm, rs, key);
    var rs' := Runs(cur + [key]);
    assert Init(rs') == Init(rs) && Last(rs') == run + [key];
    assert Init(run + [key]) == run && Last(run + [key]) == key;
    assert RunLine(idx, run + [key]) == RunLine(idx, run) + Summary(PagesOf(idx, key));
  }

  /** A key with the Wikidot form of the group but a new MediaWiki form saves
      the run's line and opens a new run. */
  lemma NewRunStep(canon: string -> string, idx: map<string, seq<string>>, keys: seq<string>, key: string)
    requires keys != []
    requires canon(Last(Groups(canon, keys))[0]) == canon(key)
    requires MediawikiForm(Last(Runs(Last(Groups(canon, keys))))[0]) != MediawikiForm(key)
    ensures ScanStep(canon, idx, Expected(canon, idx, keys), key) == Expected(canon, idx, keys + [key])
  {
    var gs := Groups(canon, keys);
    var cur := Last(gs);
    var rs := Runs(cur);
    assert Init(keys + [key]) == keys && Last(keys + [key]) == key;
    AttachJoins(canon, gs, key);
    assert Init(cur + [key]) == cur && Last(cur + [key]) == key;
    AttachOpens(MediawikiForm, rs, key);
    assert RunLines(idx, rs) == RunLines(idx, Init(rs)) + [RunLine(idx, Last(rs))];
  }

  /** Once a group is open, each step of the scan keeps its variables equal to
      the reference state. */
  lemma ScanStepExpected(canon: string -> string, idx: map<string, seq<string>>, keys: seq<string>, key: string)
    requires keys != []
    ensures ScanStep(canon, idx, Expected(canon, idx, keys), key) == Expected(canon, idx, keys + [key])
  {
    var cur := Last(Groups(canon, keys));
    if canon(cur[0]) != canon(key) {
      NewGroupStep(canon, idx, keys, key);
    } else if MediawikiForm(Last(Runs(cur))[0]) == MediawikiForm(key) {
      SameRunStep(canon, idx, keys, key);
    } else {
      NewRunStep(canon, idx, keys, key);
    }
  }

  /** The state after a single key that opens a group. */
  lemma ExpectedFirst(canon: string -> string, idx: map<string, seq<string>>, key: string)
    ensures Expected(canon, idx, [key]) == ScanState(key, key, [], Opening(idx, key), 0, [])
  {
    assert Init([key]) == [] && Last([key]) == key;
  }

  /** From the sentinels, a first key with another Wikidot form opens a group. */
  lemma ScanFirst(canon: string -> string, idx: map<string, seq<string>>, key: string)
    requires canon(key) != canon(OuterSentinel)
    ensures Scan(canon, idx, [key]) == Expected(canon, idx, [key])
  {
    assert Init([key]) == [] && Last([key]) == key;
    assert Scan(canon, idx, []) == Start;
    assert Flush(Start) == Start;
    ExpectedFirst(canon, idx, key);
  }

  /** Once the first key has opened a group, the scan's variables are those of
      the reference state. */
  lemma {:induction false} ScanFollows(canon: string -> string, idx: map<string, seq<string>>, keys: seq<string>)
    requires keys != [] && canon(keys[0]) != canon(OuterSentinel)
    ensures Scan(canon, idx, keys) == Expected(canon, idx, keys)
    decreases |keys|
  {
    var init := Init(keys);
    var key := Last(keys);
    if init == [] {
      assert keys == [key];
      ScanFirst(canon, idx, key);
    } else {
      assert init[0] == keys[0];
      InitLast(keys);
      ScanFollows(canon, idx, init);
      ScanStepExpected(canon, idx, init, key);
    }
  }

  /** The scan as written, when the first key's Wikidot form differs from that
      of `"nonsense"`: its count is the number of groups, except the last one,
      that hold more than one MediaWiki form, and its report lists exactly those
      groups. The last group is never counted or written. */
  lemma ScanMeaning(canon: string -> string, idx: map<string, seq<string>>, keys: seq<string>)
    requires keys != [] && canon(keys[0]) != canon(OuterSentinel)
    ensures Scan(canon, idx, keys).count == CountReported(Init(Groups(canon, keys)))
    ensures Scan(canon, idx, keys).report == ReportOf(idx, Init(Groups(canon, keys)))
  {
    ScanFollows(canon, idx, keys);
  }

  // ---------------------------------------------------------------------------
  // The report with every group considered

  /** The scan with its evident purpose: the first key always opens a group,
      and the last group is written out after the loop. */
  method ReportAllGroups(canon: string -> string, inverseSite: map<string, seq<string>>, inverseKeys: seq<string>)
    returns (count: nat, report: seq<string>)
    requires forall k :: k in inverseKeys ==> k in inverseSite
    ensures count == CountReported(Groups(canon, inverseKeys))
    ensures report == ReportOf(inverseSite, Groups(canon, inverseKeys))
  {
    if inverseKeys == [] {
      return 0, [];
    }
    var first := inverseKeys[0];
    var firstLine := FormatPageList(inverseSite, first);
    var st := ScanState(first, first, [], "'" + first + "' <=== " + firstLine, 0, []);
    assert inverseKeys[..1] == [first];
    ExpectedFirst(canon, inverseSite, first);
    for i := 1 to |inverseKeys|
      invariant st == Expected(canon, inverseSite, inverseKeys[..i])
    {
      ScanStepExpected(canon, inverseSite, inverseKeys[..i], inverseKeys[i]);
      PrefixStep(inverseKeys, i);
      st := ScanStep(canon, inverseSite, st, inverseKeys[i]);
    }
    assert inverseKeys[..|inverseKeys|] == inverseKeys;
    FlushExpected(canon, inverseSite, inverseKeys);
    st := Flush(st);
    count, report := st.count, st.report;
  }

  // ---------------------------------------------------------------------------
  // What the groups and runs are

  /** Every piece is non-empty. */
  lemma {:induction false} SplitNonEmpty(f: string -> string, s: seq<string>, i: int)
    requires 0 <= i < |Split(f, s)|
    ensures Split(f, s)[i] != []
    decreases |s|
  {
    var parts := Split(f, Init(s));
    var x := Last(s);
    var r := Split(f, s);
    if i == |r| - 1 {
      assert r[i] == Last(r);
    } else if parts != [] && f(Last(parts)[0]) == f(x) {
      AttachJoins(f, parts, x);
      assert r[i] == Init(r)[i] == parts[i];
      SplitNonEmpty(f, Init(s), i);
    } else {
      AttachOpens(f, parts, x);
      assert r[i] == parts[i];
      SplitNonEmpty(f, Init(s), i);
    }
  }

  /** Every member of a piece comes from the sequence. */
  lemma {:induction false} SplitMember(f: string -> string, s: seq<string>, i: int, j: int)
    requires 0 <= i < |Split(f, s)| && 0 <= j < |Split(f, s)[i]|
    ensures Split(f, s)[i][j] in s
    decreases |s|
  {
    var parts := Split(f, Init(s));
    var x := Last(s);
    var r := Split(f, s);
    InitLast(s);
    if parts != [] && f(Last(parts)[0]) == f(x) {
      AttachJoins(f, parts, x);
      if i < |r| - 1 {
        assert r[i] == Init(r)[i] == parts[i];
        SplitMember(f, Init(s), i, j);
      } else if j < |Last(parts)| {
        assert parts[i] == Last(parts);
        assert r[i][j] == parts[i][j];
        SplitMember(f, Init(s), i, j);
      } else {
        assert r[i][j] == x;
      }
    } else {
      AttachOpens(f, parts, x);
      if i < |r| - 1 {
        assert r[i] == parts[i];
        SplitMember(f, Init(s), i, j);
      } else {
        assert r[i] == [x];
      }
    }
  }

  /** The last member of the sequence shares the image of the last piece. */
  lemma SplitLastImage(f: string -> string, s: seq<string>)
    requires s != []
    ensures f(Last(Split(f, s))[0]) == f(Last(s))
  {
    var parts := Split(f, Init(s));
    var x := Last(s);
    if parts != [] && f(Last(parts)[0]) == f(x) {
      AttachJoins(f, parts, x);
      assert Last(Split(f, s))[0] == Last(parts)[0];
    } else {
      AttachOpens(f, parts, x);
    }
  }

  /** Members with the same image stand next to each other. */
  predicate Clustered(f: string -> string, s: seq<string>) {
    forall i, j, k :: 0 <= i < j < k < |s| && f(s[i]) == f(s[k]) ==> f(s[j]) == f(s[i])
  }

  /** No two pieces share an image. */
  predicate DistinctImages(f: string -> string, parts: seq<seq<string>>) {
    forall i, j :: 0 <= i < j < |parts| ==>
      parts[i] != [] && parts[j] != [] && f(parts[i][0]) != f(parts[j][0])
  }

  /** Joining a member to the last piece keeps the images distinct. */
  lemma JoinKeepsDistinct(f: string -> string, parts: seq<seq<string>>, x: string)
    requires parts != [] && Last(parts) != [] && f(Last(parts)[0]) == f(x)
    requires DistinctImages(f, parts)
    ensures DistinctImages(f, Attach(f, parts, x))
  {
    var r := Attach(f, parts, x);
    AttachJoins(f, parts, x);
    assert |r| == |parts|;
    forall i | 0 <= i < |r| ensures r[i] != [] && r[i][0] == parts[i][0] {
      if i < |r| - 1 {
        assert r[i] == Init(r)[i] == parts[i];
      } else {
        assert parts[i] == Last(parts) && r[i] == Last(r);
      }
    }
  }

  /** Opening a piece for a member of a new image keeps the images distinct. */
  lemma OpenKeepsDistinct(f: string -> string, parts: seq<seq<string>>, x: string)
    requires parts != [] ==> Last(parts) != []
    requires !(parts != [] && f(Last(parts)[0]) == f(x))
    requires DistinctImages(f, parts)
    requires forall i :: 0 <= i < |parts| ==> parts[i] != [] && f(parts[i][0]) != f(x)
    ensures DistinctImages(f, Attach(f, parts, x))
  {
    var r := Attach(f, parts, x);
    AttachOpens(f, parts, x);
    assert |r| == |parts| + 1 && r[|parts|] == [x];
    forall i | 0 <= i < |parts| ensures r[i] == parts[i] {
      assert r[i] == Init(r)[i];
    }
  }

  /** When members with the same image stand together, no two pieces share an
      image: each piece holds all members of one image. */
  lemma {:induction false} SplitDistinctImages(f: string -> string, s: seq<string>)
    requires Clustered(f, s)
    ensures DistinctImages(f, Split(f, s))
    decreases |s|
  {
    if s != [] {
      var init := Init(s);
      var parts := Split(f, init);
      var x := Last(s);
      assert Clustered(f, init) by {
        forall i, j, k | 0 <= i < j < k < |init| && f(init[i]) == f(init[k]) ensures f(init[j]) == f(init[i]) {
          assert init[i] == s[i] && init[j] == s[j] && init[k] == s[k];
        }
      }
      SplitDistinctImages(f, init);
      if parts != [] && f(Last(parts)[0]) == f(x) {
        JoinKeepsDistinct(f, parts, x);
      } else {
        forall i | 0 <= i < |parts| ensures parts[i] != [] && f(parts[i][0]) != f(x) {
          SplitNonEmpty(f, init, i);
          SplitMember(f, init, i, 0);
          var p :| 0 <= p < |init| && init[p] == parts[i][0];
          var z := init[|init| - 1];
          SplitLastImage(f, init);
          assert f(z) != f(x);
          if p < |init| - 1 {
            assert s[p] == init[p] && s[|init| - 1] == z && s[|s| - 1] == x;
          }
        }
        OpenKeepsDistinct(f, parts, x);
      }
    } else {
      assert Split(f, s) == [];
    }
  }

  /** A sequence in some order keeps that order within each piece. */
  lemma {:induction false} SplitSorted(fs: seq<string -> string>, f: string -> string, s: seq<string>, i: int)
    requires KeyOrder.SortedBy(fs, s)
    requires 0 <= i < |Split(f, s)|
    ensures KeyOrder.SortedBy(fs, Split(f, s)[i])
    decreases |s|
  {
    var init := Init(s);
    var parts := Split(f, init);
    var x := Last(s);
    var r := Split(f, s);
    assert KeyOrder.SortedBy(fs, init) by {
      forall a, b | 0 <= a < b < |init| ensures KeyOrder.KeyLe(fs, init[a], init[b]) {
        assert init[a] == s[a] && init[b] == s[b];
      }
    }
    if parts != [] && f(Last(parts)[0]) == f(x) {
      AttachJoins(f, parts, x);
      if i < |r| - 1 {
        assert r[i] == Init(r)[i] == parts[i];
        SplitSorted(fs, f, init, i);
      } else {
        var last := Last(parts);
        assert parts[|parts| - 1] == last;
        SplitSorted(fs, f, init, |parts| - 1);
        assert r[i] == last + [x];
        forall a, b | 0 <= a < b < |last| + 1 ensures KeyOrder.KeyLe(fs, (last + [x])[a], (last + [x])[b]) {
          if b < |last| {
            assert (last + [x])[a] == last[a] && (last + [x])[b] == last[b];
          } else {
            SplitMember(f, init, |parts| - 1, a);
            var p :| 0 <= p < |init| && init[p] == last[a];
            assert s[p] == last[a] && s[|s| - 1] == x;
          }
        }
      }
    } else {
      AttachOpens(f, parts, x);
      if i < |r| - 1 {
        assert r[i] == parts[i];
        SplitSorted(fs, f, init, i);
      }
    }
  }

  /** A group is reported exactly when two of its keys have different
      MediaWiki forms. */
  lemma ReportedIff(g: seq<string>)
    ensures Reported(g) <==>
              exists a, b :: 0 <= a < |g| && 0 <= b < |g| && MediawikiForm(g[a]) != MediawikiForm(g[b])
  {
    var rs := Runs(g);
    if Reported(g) {
      SplitBreaks(MediawikiForm, g, 1);
      SplitMember(MediawikiForm, g, 0, 0);
      SplitMember(MediawikiForm, g, 1, 0);
      var a :| 0 <= a < |g| && g[a] == rs[0][0];
      var b :| 0 <= b < |g| && g[b] == rs[1][0];
      assert MediawikiForm(g[a]) != MediawikiForm(g[b]);
    } else if g != [] {
      SplitFlatten(MediawikiForm, g);
      assert Init(rs) == [];
      assert g == rs[0];
      forall a, b | 0 <= a < |g| && 0 <= b < |g| ensures MediawikiForm(g[a]) == MediawikiForm(g[b]) {
        SplitAgree(MediawikiForm, g, 0, a);
        SplitAgree(MediawikiForm, g, 0, b);
      }
    }
  }

  /** On keys in the analysis order, the groups are the Wikidot names: all keys
      of a group share the Wikidot form, and no two groups do. */
  lemma GroupsAreWikidotNames(canon: string -> string, keys: seq<string>, i: int, j: int)
    requires KeyOrder.SortedBy(KeyOrder.AnalysisOrder(canon), keys)
    requires 0 <= i < j < |Groups(canon, keys)|
    ensures Groups(canon, keys)[i] != [] && Groups(canon, keys)[j] != []
    ensures canon(Groups(canon, keys)[i][0]) != canon(Groups(canon, keys)[j][0])
  {
    assert Clustered(canon, keys) by {
      forall a, b, c | 0 <= a < b < c < |keys| && canon(keys[a]) == canon(keys[c])
        ensures canon(keys[b]) == canon(keys[a])
      {
        KeyOrder.WikidotGroupsContiguous(canon, keys, a, b, c);
      }
    }
    SplitDistinctImages(canon, keys);
  }

  /** On keys in the analysis order, the runs of a group are its MediaWiki
      forms: no two runs share one, so the report has one line per form. */
  lemma RunsAreMediawikiForms(canon: string -> string, keys: seq<string>, g: int, i: int, j: int)
    requires KeyOrder.SortedBy(KeyOrder.AnalysisOrder(canon), keys)
    requires 0 <= g < |Groups(canon, keys)|
    requires 0 <= i < j < |Runs(Groups(canon, keys)[g])|
    ensures Runs(Groups(canon, keys)[g])[i] != [] && Runs(Groups(canon, keys)[g])[j] != []
    ensures MediawikiForm(Runs(Groups(canon, keys)[g])[i][0]) != MediawikiForm(Runs(Groups(canon, keys)[g])[j][0])
  {
    var grp := Groups(canon, keys)[g];
    SplitSorted(KeyOrder.AnalysisOrder(canon), canon, keys, g);
    assert Clustered(MediawikiForm, grp) by {
      forall a, b, c | 0 <= a < b < c < |grp| && MediawikiForm(grp[a]) == MediawikiForm(grp[c])
        ensures MediawikiForm(grp[b]) == MediawikiForm(grp[a])
      {
        SplitAgree(canon, keys, g, a);
        SplitAgree(canon, keys, g, c);
        KeyOrder.MediawikiRunsContiguous(canon, grp, a, b, c);
      }
    }
    SplitDistinctImages(MediawikiForm, grp);
  }

  // ---------------------------------------------------------------------------
  // Two inputs on which the scan as written goes wrong

  lemma PairSplitOne(f: string -> string, a: string, b: string)
    requires f(a) == f(b)
    ensures Split(f, [a, b]) == [[a, b]]
  {
    assert Init([a, b]) == [a] && Last([a, b]) == b;
    assert Init([a]) == [] && Last([a]) == a;
    assert Split(f, [a]) == [[a]];
    assert Init([[a]]) == [] && Last([[a]]) == [a];
    assert Attach(f, [[a]], b) == [] + [[a] + [b]];
    assert [a] + [b] == [a, b];
  }

  lemma PairSplitTwo(f: string -> string, a: string, b: string)
    requires f(a) != f(b)
    ensures Split(f, [a, b]) == [[a], [b]]
  {
    assert Init([a, b]) == [a] && Last([a, b]) == b;
    assert Init([a]) == [] && Last([a]) == a;
    assert Split(f, [a]) == [[a]];
    AttachOpens(f, [[a]], b);
  }

  /** Two keys Wikidot reads as one name and MediaWiki as two, as the only
      keys: the group they form comes last, so the scan as written counts
      nothing and writes nothing, although the group is to be reported. */
  lemma LastGroupDropped(canon: string -> string, idx: map<string, seq<string>>, a: string, b: string)
    requires canon(a) == canon(b) && canon(a) != canon(OuterSentinel)
    requires MediawikiForm(a) != MediawikiForm(b)
    ensures Scan(canon, idx, [a, b]).count == 0 && Scan(canon, idx, [a, b]).report == []
    ensures CountReported(Groups(canon, [a, b])) == 1
  {
    ScanMeaning(canon, idx, [a, b]);
    PairSplitOne(canon, a, b);
    PairSplitTwo(MediawikiForm, a, b);
    assert Init([[a, b]]) == [] && Last([[a, b]]) == [a, b];
  }

  /** The example: `"Foo bar"` and `"foo-bar"`, which Wikidot reads as one
      name and MediaWiki as `"Foo bar"` and `"Foo-bar"`. */
  lemma LastGroupDroppedExample(canon: string -> string, idx: map<string, seq<string>>)
    requires canon("Foo bar") == canon("foo-bar") && canon("Foo bar") != canon(OuterSentinel)
    ensures Scan(canon, idx, ["Foo bar", "foo-bar"]).count == 0
    ensures Scan(canon, idx, ["Foo bar", "foo-bar"]).report == []
    ensures CountReported(Groups(canon, ["Foo bar", "foo-bar"])) == 1
  {
    var a, b := "Foo bar", "foo-bar";
    assert NoDoubleSpace(a) by {
      forall i | 0 <= i < |a| - 1 ensures !(a[i] == ' ' && a[i + 1] == ' ') {}
    }
    TidyFormsDiffer(a, b, 3);
    LastGroupDropped(canon, idx, a, b);
  }

  /** From the sentinels, a first key with the sentinel's Wikidot form but
      another MediaWiki form saves an empty line. */
  lemma SentinelFirstStep(canon: string -> string, idx: map<string, seq<string>>, a: string)
    requires canon(a) == canon(OuterSentinel)
    requires MediawikiForm(a) != MediawikiForm(InnerSentinel)
    ensures Scan(canon, idx, [a]) == ScanState(OuterSentinel, a, [""], Opening(idx, a), 0, [])
  {
    assert Init([a]) == [] && Last([a]) == a;
    assert Scan(canon, idx, [a]) == ScanStep(canon, idx, Start, a);
    assert canon(Start.outerKey) == canon(a);
    assert MediawikiForm(Start.innerKey) != MediawikiForm(a);
  }

  /** A first key whose Wikidot form is that of `"nonsense"` is taken as part
      of the sentinel's group, and with a MediaWiki form other than that of
      `"random string"` it makes the sentinel group count as a name with two
      forms: the scan writes `"nonsense"`, an empty line and the key's line,
      although neither group is to be reported. */
  lemma SentinelCounted(canon: string -> string, idx: map<string, seq<string>>, a: string, b: string)
    requires canon(a) == canon(OuterSentinel) && canon(b) != canon(a)
    requires MediawikiForm(a) != MediawikiForm(InnerSentinel)
    ensures Scan(canon, idx, [a, b]).count == 1
    ensures Scan(canon, idx, [a, b]).report == Written(OuterSentinel, ["", Opening(idx, a)])
    ensures CountReported(Groups(canon, [a, b])) == 0
  {
    SentinelSecondStep(canon, idx, a, b);
    var st1 := ScanState(OuterSentinel, a, [""], Opening(idx, a), 0, []);
    assert [""] + [Opening(idx, a)] == ["", Opening(idx, a)];
    assert Flush(st1).count == 1;
    assert Flush(st1).report == [] + Written(OuterSentinel, ["", Opening(idx, a)]);
    SeparateGroups(canon, a, b);
  }

  /** The second key of another Wikidot form writes out what the first left. */
  lemma SentinelSecondStep(canon: string -> string, idx: map<string, seq<string>>, a: string, b: string)
    requires canon(a) == canon(OuterSentinel) && canon(b) != canon(a)
    requires MediawikiForm(a) != MediawikiForm(InnerSentinel)
    ensures var st1 := ScanState(OuterSentinel, a, [""], Opening(idx, a), 0, []);
            Scan(canon, idx, [a, b]) == ScanStep(canon, idx, st1, b)
            && Scan(canon, idx, [a, b]).count == Flush(st1).count
            && Scan(canon, idx, [a, b]).report == Flush(st1).report
  {
    SentinelFirstStep(canon, idx, a);
    assert Init([a, b]) == [a] && Last([a, b]) == b;
  }

  /** A single key is one run, and so never reported. */
  lemma SingleRun(k: string)
    ensures Runs([k]) == [[k]] && !Reported([k])
  {
    assert Init([k]) == [] && Last([k]) == k;
  }

  /** Two keys with different Wikidot forms, each alone in its group, give
      nothing to report. */
  lemma SeparateGroups(canon: string -> string, a: string, b: string)
    requires canon(a) != canon(b)
    ensures CountReported(Groups(canon, [a, b])) == 0
  {
    PairSplitTwo(canon, a, b);
    SingleRun(a);
    SingleRun(b);
    var gs: seq<seq<string>> := [[a], [b]];
    assert Init(gs) == [[a]] && Last(gs) == [b];
    assert Init([[a]]) == [] && Last([[a]]) == [a];
    assert CountReported([[a]]) == 0;
  }

  /** The example: a link written `"nonsense"`, followed by any key with
      another Wikidot form. */
  lemma SentinelCountedExample(canon: string -> string, idx: map<string, seq<string>>, b: string)
    requires canon(b) != canon(OuterSentinel)
    ensures Scan(canon, idx, [OuterSentinel, b]).count == 1
    ensures Scan(canon, idx, [OuterSentinel, b]).report == Written(OuterSentinel, ["", Opening(idx, OuterSentinel)])
    ensures CountReported(Groups(canon, [OuterSentinel, b])) == 0
  {
    var a, r := OuterSentinel, InnerSentinel;
    assert NoDoubleSpace(r) by {
      forall i | 0 <= i < |r| - 1 ensures !(r[i] == ' ' && r[i + 1] == ' ') {}
    }
    TidyFormsDiffer(a, r, 1);
    SentinelCounted(canon, idx, a, b);
  }
}
