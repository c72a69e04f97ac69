/**
 * The order in which the inverted map's keys are examined: listed once each,
 * then sorted three times with a stable sort, by the raw text, by the
 * MediaWiki form and by the Wikidot form.
 */
module KeyOrder {
  import opened Text
  import opened MediaWiki

  /** The sort key `lambda elem: elem`. */
  function Id(s: string): string { s }

  /** `x` comes no later than `y` when compared on the keys `fs` in turn: the
      first key on which they differ decides, by Python's string order. */
  predicate KeyLe(fs: seq<string -> string>, x: string, y: string)
    decreases |fs|
  {
    || fs == []
    || (fs[0](x) != fs[0](y) && LessEq(fs[0](x), fs[0](y)))
    || (fs[0](x) == fs[0](y) && KeyLe(fs[1..], x, y))
  }

  predicate SortedBy(fs: seq<string -> string>, s: seq<string>) {
    forall i, j :: 0 <= i < j < |s| ==> KeyLe(fs, s[i], s[j])
  }

  predicate Distinct(s: seq<string>) {
    forall i, j :: 0 <= i < j < |s| ==> s[i] != s[j]
  }

  /** `list(inverseSite.keys())`: every key once. The dictionary's insertion
      order is not modelled; any order is taken (see `SortedUnique`). */
  method KeyList(m: map<string, seq<string>>) returns (keys: seq<string>)
    ensures forall k :: k in keys <==> k in m
    ensures Distinct(keys)
  {
    keys := [];
    var rest := m.Keys;
    while rest != {}
      invariant forall k :: k in m <==> k in keys || k in rest
      invariant forall k :: k in keys ==> k !in rest
      invariant Distinct(keys)
      decreases rest
    {
      var k :| k in rest;
      keys := keys + [k];
      rest := rest - {k};
    }
  }

  // ---------------------------------------------------------------------------
  // One stable sort

  /** `s` is `orig` rearranged, element `k` coming from position `perm[k]`. */
  predicate Moved(orig: seq<string>, s: seq<string>, perm: seq<int>) {
    && |perm| == |s| == |orig|
    && forall k :: 0 <= k < |s| ==> 0 <= perm[k] < |orig| && s[k] == orig[perm[k]]
  }

  /** The first `n` elements are in order of `key`. */
  predicate SortedUpTo(key: string -> string, s: seq<string>, n: int) {
    forall p, q :: 0 <= p < q < n && q < |s| ==> LessEq(key(s[p]), key(s[q]))
  }

  /** Among the first `n` elements, those with equal keys are in their
      original relative order. */
  predicate StableUpTo(key: string -> string, s: seq<string>, perm: seq<int>, n: int)
    requires |perm| == |s|
  {
    forall p, q :: 0 <= p < q < n && q < |s| && key(s[p]) == key(s[q]) ==> perm[p] < perm[q]
  }

  /** Only the first `i` elements have been moved, among themselves. */
  predicate Untouched(perm: seq<int>, i: int) {
    && (forall k :: 0 <= k < |perm| && i <= k ==> perm[k] == k)
    && (forall k :: 0 <= k < i && k < |perm| ==> perm[k] < i)
  }

  /** Exchanges the elements at `j - 1` and `j`. */
  function Swap<T>(s: seq<T>, j: int): (r: seq<T>)
    requires 0 < j < |s|
    ensures |r| == |s| && r[j - 1] == s[j] && r[j] == s[j - 1]
    ensures forall k :: 0 <= k < |s| && k != j - 1 && k != j ==> r[k] == s[k]
  {
    s[j - 1 := s[j]][j := s[j - 1]]
  }

  /** `list.sort(key=key)`: a stable insertion sort. The ghost `perm` tells
      where each element came from; elements with equal keys keep their
      relative order. */
  method SortByKey(a: array<string>, key: string -> string) returns (ghost perm: seq<int>)
    modifies a
    ensures multiset(a[..]) == multiset(old(a[..]))
    ensures Moved(old(a[..]), a[..], perm)
    ensures SortedUpTo(key, a[..], a.Length)
    ensures StableUpTo(key, a[..], perm, a.Length)
  {
    ghost var orig := a[..];
    perm := seq(a.Length, k => k);
    var i := 0;
    while i < a.Length
      invariant 0 <= i <= a.Length
      invariant multiset(a[..]) == multiset(orig)
      invariant Moved(orig, a[..], perm) && Untouched(perm, i)
      invariant SortedUpTo(key, a[..], i) && StableUpTo(key, a[..], perm, i)
    {
      perm := Insert(a, i, key, orig, perm);
      i := i + 1;
    }
  }

  /** One pass of the insertion sort: moves `a[i]` left past every element
      with a strictly greater key. */
  method Insert(a: array<string>, i: int, key: string -> string, ghost orig: seq<string>, ghost perm0: seq<int>)
      returns (ghost perm: seq<int>)
    modifies a
    requires 0 <= i < a.Length
    requires Moved(orig, a[..], perm0) && Untouched(perm0, i)
    requires SortedUpTo(key, a[..], i) && StableUpTo(key, a[..], perm0, i)
    ensures multiset(a[..]) == multiset(old(a[..]))
    ensures Moved(orig, a[..], perm) && Untouched(perm, i + 1)
    ensures SortedUpTo(key, a[..], i + 1) && StableUpTo(key, a[..], perm, i + 1)
  {
    perm := perm0;
    var j := i;
    InsertStart(key, a[..], perm, i);
    while j > 0 && !LessEq(key(a[j - 1]), key(a[j]))
      invariant 0 <= j <= i
      invariant multiset(a[..]) == multiset(old(a[..]))
      invariant Moved(orig, a[..], perm)
      invariant Inserting(key, a[..], perm, i, j)
      decreases j
    {
      ghost var s := a[..];
      a[j - 1], a[j] := a[j], a[j - 1];
      assert a[..] == Swap(s, j);
      InsertSwap(key, orig, s, perm, i, j);
      perm := Swap(perm, j);
      j := j - 1;
    }
    InsertDone(key, a[..], perm, i, j);
  }

  /** The state while `a[i]`, now at `j`, moves left: every other element of
      the prefix is in order, everything after `j` has a strictly greater key,
      and the moving element came from `i`, after all the others. */
  predicate Inserting(key: string -> string, s: seq<string>, perm: seq<int>, i: int, j: int) {
    && 0 <= j <= i < |s| && |perm| == |s|
    && perm[j] == i
    && (forall k :: 0 <= k <= i && k != j ==> perm[k] < i)
    && (forall k :: i < k < |s| ==> perm[k] == k)
    && (forall p, q :: 0 <= p < q <= i && p != j && q != j ==> LessEq(key(s[p]), key(s[q])))
    && (forall q :: j < q <= i ==> !LessEq(key(s[q]), key(s[j])))
    && (forall p, q :: 0 <= p < q <= i && p != j && q != j && key(s[p]) == key(s[q]) ==> perm[p] < perm[q])
  }

  lemma InsertStart(key: string -> string, s: seq<string>, perm: seq<int>, i: int)
    requires 0 <= i < |s| && |perm| == |s| && Untouched(perm, i)
    requires SortedUpTo(key, s, i) && StableUpTo(key, s, perm, i)
    ensures Inserting(key, s, perm, i, i)
  {
  }

  lemma InsertSwap(key: string -> string, orig: seq<string>, s: seq<string>, perm: seq<int>, i: int, j: int)
    requires Moved(orig, s, perm) && Inserting(key, s, perm, i, j)
    requires 0 < j && !LessEq(key(s[j - 1]), key(s[j]))
    ensures multiset(Swap(s, j)) == multiset(s)
    ensures Moved(orig, Swap(s, j), Swap(perm, j))
    ensures Inserting(key, Swap(s, j), Swap(perm, j), i, j - 1)
  {
    SwapMultiset(s, j);
    InsertSwapOrder(key, s, perm, i, j);
  }

  lemma SwapMultiset(s: seq<string>, j: int)
    requires 0 < j < |s|
    ensures multiset(Swap(s, j)) == multiset(s)
  {
    assert s == s[..j - 1] + [s[j - 1], s[j]] + s[j + 1..];
    assert Swap(s, j) == s[..j - 1] + [s[j], s[j - 1]] + s[j + 1..];
  }

  lemma InsertSwapOrder(key: string -> string, s: seq<string>, perm: seq<int>, i: int, j: int)
    requires Inserting(key, s, perm, i, j)
    requires 0 < j && !LessEq(key(s[j - 1]), key(s[j]))
    ensures Inserting(key, Swap(s, j), Swap(perm, j), i, j - 1)
  {
    var t, pt := Swap(s, j), Swap(perm, j);
    forall p, q | 0 <= p < q <= i && p != j - 1 && q != j - 1
      ensures LessEq(key(t[p]), key(t[q]))
      ensures key(t[p]) == key(t[q]) ==> pt[p] < pt[q]
    {
      if p == j {
        assert t[p] == s[j - 1] && pt[p] == perm[j - 1];
        assert t[q] == s[q] && pt[q] == perm[q];
      } else if q == j {
        assert t[q] == s[j - 1] && pt[q] == perm[j - 1];
        assert t[p] == s[p] && pt[p] == perm[p];
      } else {
        assert t[p] == s[p] && pt[p] == perm[p];
        assert t[q] == s[q] && pt[q] == perm[q];
      }
    }
    forall q | j - 1 < q <= i ensures !LessEq(key(t[q]), key(t[j - 1])) {
      if q == j {
        assert t[q] == s[j - 1];
      } else {
        assert t[q] == s[q];
      }
    }
  }

  /** Once the moving element stops, the prefix up to `i` is sorted and stable. */
  lemma InsertDone(key: string -> string, s: seq<string>, perm: seq<int>, i: int, j: int)
    requires Inserting(key, s, perm, i, j)
    requires j == 0 || LessEq(key(s[j - 1]), key(s[j]))
    ensures Untouched(perm, i + 1)
    ensures SortedUpTo(key, s, i + 1) && StableUpTo(key, s, perm, i + 1)
  {
    forall p, q | 0 <= p < q <= i
      ensures LessEq(key(s[p]), key(s[q]))
      ensures key(s[p]) == key(s[q]) ==> perm[p] < perm[q]
    {
      if q == j {
        if p < j - 1 {
          LessEqTransitive(key(s[p]), key(s[j - 1]), key(s[j]));
        }
      } else if p == j {
        LessEqTotal(key(s[q]), key(s[j]));
        LessEqReflexive(key(s[j]));
      }
    }
  }

  // ---------------------------------------------------------------------------
  // Three stable sorts make one lexicographic sort

  /** Comparing on `f` and then on `fs`. */
  lemma KeyLeCons(f: string -> string, fs: seq<string -> string>, x: string, y: string)
    ensures KeyLe([f] + fs, x, y) <==>
              (f(x) != f(y) && LessEq(f(x), f(y))) || (f(x) == f(y) && KeyLe(fs, x, y))
  {
    var gs := [f] + fs;
    assert gs[0] == f && gs[1..] == fs;
  }

  /** The order the analysis wants: by Wikidot form, then by MediaWiki form,
      then by the raw text. */
  function AnalysisOrder(canon: string -> string): seq<string -> string> {
    [canon, MediawikiForm, Id]
  }

  /** `AnalysisOrder` spelled out as a comparison of triples. */
  lemma AnalysisOrderLe(canon: string -> string, x: string, y: string)
    ensures KeyLe(AnalysisOrder(canon), x, y) <==>
              || (canon(x) != canon(y) && LessEq(canon(x), canon(y)))
              || (canon(x) == canon(y) && MediawikiForm(x) != MediawikiForm(y)
                  && LessEq(MediawikiForm(x), MediawikiForm(y)))
              || (canon(x) == canon(y) && MediawikiForm(x) == MediawikiForm(y) && LessEq(x, y))
  {
    assert AnalysisOrder(canon) == [canon] + ([MediawikiForm] + ([Id] + []));
    KeyLeCons(canon, [MediawikiForm] + ([Id] + []), x, y);
    KeyLeCons(MediawikiForm, [Id] + [], x, y);
    KeyLeCons(Id, [], x, y);
    if x != y {
      assert Id(x) != Id(y);
    } else {
      LessEqReflexive(x);
    }
  }

  /** A stable sort by `f` of a sequence already ordered by the keys `fs`
      orders it by `f` first and by `fs` among equal `f`. */
  lemma StableSortRefines(fs: seq<string -> string>, f: string -> string,
                          orig: seq<string>, s: seq<string>, perm: seq<int>)
    requires SortedBy(fs, orig)
    requires Moved(orig, s, perm)
    requires SortedUpTo(f, s, |s|) && StableUpTo(f, s, perm, |s|)
    ensures SortedBy([f] + fs, s)
  {
    forall i, j | 0 <= i < j < |s| ensures KeyLe([f] + fs, s[i], s[j]) {
      KeyLeCons(f, fs, s[i], s[j]);
      if f(s[i]) == f(s[j]) {
        assert KeyLe(fs, orig[perm[i]], orig[perm[j]]);
      }
    }
  }

  /** One more stable sort, by `f`, of an array already ordered by `fs`. */
  method SortAgain(a: array<string>, f: string -> string, ghost fs: seq<string -> string>)
    modifies a
    requires SortedBy(fs, a[..])
    ensures multiset(a[..]) == multiset(old(a[..]))
    ensures SortedBy([f] + fs, a[..])
  {
    ghost var before := a[..];
    ghost var perm := SortByKey(a, f);
    StableSortRefines(fs, f, before, a[..], perm);
  }

  /** The three calls to `sort` in the analysis: by the raw text, then by the
      MediaWiki form, then by the Wikidot form `canon`. The result holds the
      same keys, ordered by (Wikidot form, MediaWiki form, raw text). */
  method SortKeys(keys: seq<string>, canon: string -> string) returns (sorted: seq<string>)
    ensures multiset(sorted) == multiset(keys)
    ensures SortedBy(AnalysisOrder(canon), sorted)
  {
    var a := new string[|keys|](k requires 0 <= k < |keys| => keys[k]);
    assert a[..] == keys;
    SortAgain(a, Id, []);
    SortAgain(a, MediawikiForm, [Id]);
    SortAgain(a, canon, [MediawikiForm] + [Id]);
    assert [canon] + ([MediawikiForm] + [Id]) == AnalysisOrder(canon);
    sorted := a[..];
  }

  // ---------------------------------------------------------------------------
  // What the order gives the grouping scan

  /** Keys with the same Wikidot form sit next to each other. */
  lemma WikidotGroupsContiguous(canon: string -> string, s: seq<string>, i: int, j: int, k: int)
    requires SortedBy(AnalysisOrder(canon), s)
    requires 0 <= i < j < k < |s| && canon(s[i]) == canon(s[k])
    ensures canon(s[j]) == canon(s[i])
  {
    AnalysisOrderLe(canon, s[i], s[j]);
    AnalysisOrderLe(canon, s[j], s[k]);
    if canon(s[i]) != canon(s[j]) {
      LessEqAntisymmetric(canon(s[i]), canon(s[j]));
    }
  }

  /** Within one Wikidot form, keys with the same MediaWiki form sit next to
      each other. */
  lemma MediawikiRunsContiguous(canon: string -> string, s: seq<string>, i: int, j: int, k: int)
    requires SortedBy(AnalysisOrder(canon), s)
    requires 0 <= i < j < k < |s| && canon(s[i]) == canon(s[k])
    requires MediawikiForm(s[i]) == MediawikiForm(s[k])
    ensures canon(s[j]) == canon(s[i]) && MediawikiForm(s[j]) == MediawikiForm(s[i])
  {
    WikidotGroupsContiguous(canon, s, i, j, k);
    AnalysisOrderLe(canon, s[i], s[j]);
    AnalysisOrderLe(canon, s[j], s[k]);
    if MediawikiForm(s[i]) != MediawikiForm(s[j]) {
      LessEqAntisymmetric(MediawikiForm(s[i]), MediawikiForm(s[j]));
    }
  }

  /** Two keys each ordered no later than the other are the same key. */
  lemma KeyLeAntisymmetric(canon: string -> string, x: string, y: string)
    requires KeyLe(AnalysisOrder(canon), x, y) && KeyLe(AnalysisOrder(canon), y, x)
    ensures x == y
  {
    AnalysisOrderLe(canon, x, y);
    AnalysisOrderLe(canon, y, x);
    if canon(x) != canon(y) {
      LessEqAntisymmetric(canon(x), canon(y));
    } else if MediawikiForm(x) != MediawikiForm(y) {
      LessEqAntisymmetric(MediawikiForm(x), MediawikiForm(y));
    } else {
      LessEqAntisymmetric(x, y);
    }
  }

  /** Dropping the first element keeps a sequence sorted and without repeats. */
  lemma TailSorted(fs: seq<string -> string>, s: seq<string>)
    requires s != [] && SortedBy(fs, s) && Distinct(s)
    ensures SortedBy(fs, s[1..]) && Distinct(s[1..])
  {
    var t := s[1..];
    forall i, j | 0 <= i < j < |t| ensures KeyLe(fs, t[i], t[j]) && t[i] != t[j] {
      assert t[i] == s[i + 1] && t[j] == s[j + 1];
    }
  }

  /** The sorted order depends only on the set of keys: two orderings of the
      same distinct keys, both sorted, are the same sequence. So the order in
      which `list(inverseSite.keys())` lists the keys does not matter. */
  lemma {:induction false} SortedUnique(canon: string -> string, s: seq<string>, t: seq<string>)
    requires SortedBy(AnalysisOrder(canon), s) && SortedBy(AnalysisOrder(canon), t)
    requires Distinct(s) && Distinct(t)
    requires forall k :: k in s <==> k in t
    ensures s == t
    decreases |s|
  {
    var fs := AnalysisOrder(canon);
    assert t == [] || t[0] in t;
    if s != [] {
      assert s[0] in s;
      var k :| 0 <= k < |t| && t[k] == s[0];
      var m :| 0 <= m < |s| && s[m] == t[0];
      if k != 0 && m != 0 {
        assert KeyLe(fs, s[0], s[m]);
        assert KeyLe(fs, t[0], t[k]);
        KeyLeAntisymmetric(canon, s[0], t[0]);
      }
      var s', t' := s[1..], t[1..];
      forall x ensures x in s' <==> x in t' {
        if x in s' {
          var a :| 0 <= a < |s'| && s'[a] == x;
          assert s[a + 1] == x && x != s[0];
          assert x in t;
          var b :| 0 <= b < |t| && t[b] == x;
          assert t'[b - 1] == x;
        }
        if x in t' {
          var b :| 0 <= b < |t'| && t'[b] == x;
          assert t[b + 1] == x && x != t[0];
          assert x in s;
          var a :| 0 <= a < |s| && s[a] == x;
          assert s'[a - 1] == x;
        }
      }
      TailSorted(fs, s);
      TailSorted(fs, t);
      SortedUnique(canon, s', t');
      assert s == [s[0]] + s' && t == [t[0]] + t';
    }
  }
}
