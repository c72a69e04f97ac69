/**
 * The MediaWiki canonical form of a page name (`MediawikiCanonicize`):
 * underscores read as spaces, surrounding whitespace ignored, runs of spaces
 * read as one space, and the first character upper-cased.
 */
module MediaWiki {
  import opened Text

  /** No two adjacent spaces. */
  predicate NoDoubleSpace(s: string) {
    forall i :: 0 <= i < |s| - 1 ==> !(s[i] == ' ' && s[i + 1] == ' ')
  }

  /** Reference definition: every run of spaces shortened to a single space. */
  function CollapseSpaces(s: string): string {
    if |s| < 2 then s
    else if s[0] == ' ' && s[1] == ' ' then CollapseSpaces(s[1..])
    else [s[0]] + CollapseSpaces(s[1..])
  }

  /** `s[:1].upper() + s[1:]`. */
  function UpperFirst(s: string): (r: string)
    ensures |r| == |s|
    ensures r != [] ==> r[0] == ToUpper(s[0]) && r[1..] == s[1..]
  {
    if s == [] then [] else [ToUpper(s[0])] + s[1..]
  }

  /** The name MediaWiki stores a page under; the empty name is its own form. */
  function MediawikiForm(name: string): string {
    if name == "" then name
    else UpperFirst(CollapseSpaces(Strip(Replace(name, "_", " "))))
  }

  /** The imperative normaliser: replace, strip, then `replace("  ", " ")`
      until no double space is left, then upper-case the first character. */
  method MediawikiCanonicize(name: string) returns (r: string)
    ensures r == MediawikiForm(name)
  {
    if name == "" {
      return name;
    }
    r := Replace(name, "_", " ");
    r := Strip(r);
    ghost var stripped := r;
    while Contains(r, "  ")
      invariant CollapseSpaces(r) == CollapseSpaces(stripped)
      decreases |r|
    {
      CollapseOfReplace(r);
      ReplaceShrinks(r);
      r := Replace(r, "  ", " ");
    }
    NoDoubleWhenNotContained(r);
    CollapseFixed(r);
    if |r| > 0 {
      r := [ToUpper(r[0])] + r[1..];
    }
  }

  // ---------------------------------------------------------------------------
  // Facts about collapsing and replacing spaces

  lemma CollapseCons(c: char, t: string)
    ensures CollapseSpaces([c] + t) ==
              if c == ' ' && t != [] && t[0] == ' ' then CollapseSpaces(t)
              else [c] + CollapseSpaces(t)
  {
    assert ([c] + t)[1..] == t;
  }

  /** `replace("  ", " ")` keeps whether the string begins with a space. */
  lemma {:induction false} ReplaceHead(t: string)
    ensures var u := Replace(t, "  ", " ");
            (u != [] && u[0] == ' ') <==> (t != [] && t[0] == ' ')
  {
  }

  /** `replace("  ", " ")` at a double space: one space, then the rest replaced. */
  lemma ReplaceAtDouble(s: string)
    requires |s| >= 2 && s[..2] == "  "
    ensures Replace(s, "  ", " ") == [' '] + Replace(s[2..], "  ", " ")
  {
  }

  /** `replace("  ", " ")` elsewhere: the first character kept, the rest replaced. */
  lemma ReplaceElsewhere(s: string)
    requires |s| >= 2 && s[..2] != "  "
    ensures Replace(s, "  ", " ") == [s[0]] + Replace(s[1..], "  ", " ")
  {
  }

  /** One round of `replace("  ", " ")` does not change the collapsed form. */
  lemma {:induction false} CollapseOfReplace(s: string)
    ensures CollapseSpaces(Replace(s, "  ", " ")) == CollapseSpaces(s)
    decreases |s|
  {
    if |s| < 2 {
    } else if s[..2] == "  " {
      var t := s[2..];
      CollapseOfReplace(t);
      ReplaceHead(t);
      ReplaceAtDouble(s);
      CollapseCons(' ', Replace(t, "  ", " "));
      assert s[1..] == [' '] + t;
      CollapseCons(' ', t);
    } else {
      var t := s[1..];
      CollapseOfReplace(t);
      ReplaceHead(t);
      ReplaceElsewhere(s);
      CollapseCons(s[0], Replace(t, "  ", " "));
      assert s == [s[0]] + t;
      CollapseCons(s[0], t);
    }
  }

  /** An occurrence after the first character is one in the rest. */
  lemma OccursInTail(s: string, pat: string, k: int)
    requires k >= 1 && OccursAt(s, pat, k)
    ensures OccursAt(s[1..], pat, k - 1)
  {
    assert s[1..][k - 1..k - 1 + |pat|] == s[k..k + |pat|];
  }

  lemma {:induction false} ReplaceShrinks(s: string)
    ensures |Replace(s, "  ", " ")| <= |s|
    ensures Contains(s, "  ") ==> |Replace(s, "  ", " ")| < |s|
    decreases |s|
  {
    if |s| >= 2 {
      if s[..2] == "  " {
        ReplaceAtDouble(s);
        ReplaceShrinks(s[2..]);
      } else {
        ReplaceElsewhere(s);
        ReplaceShrinks(s[1..]);
        if Contains(s, "  ") {
          var k := Find(s, "  ", 0);
          FindSpec(s, "  ", 0);
          assert !OccursAt(s, "  ", 0);
          OccursInTail(s, "  ", k);
          ContainsIff(s[1..], "  ");
        }
      }
    }
  }

  lemma NoDoubleWhenNotContained(s: string)
    requires !Contains(s, "  ")
    ensures NoDoubleSpace(s)
  {
    FindSpec(s, "  ", 0);
    forall i | 0 <= i < |s| - 1
      ensures !(s[i] == ' ' && s[i + 1] == ' ')
    {
      assert s[i..i + 2] == [s[i], s[i + 1]];
      assert !OccursAt(s, "  ", i);
    }
  }

  lemma {:induction false} CollapseFixed(s: string)
    requires NoDoubleSpace(s)
    ensures CollapseSpaces(s) == s
    decreases |s|
  {
    if |s| >= 2 {
      CollapseFixed(s[1..]);
    }
  }

  /** Collapsing removes every double space, keeps the first and the last
      character and introduces no character that was not there. */
  lemma {:induction false} CollapseShape(s: string)
    ensures var r := CollapseSpaces(s);
            && NoDoubleSpace(r)
            && (r == [] <==> s == [])
            && (s != [] ==> r[0] == s[0] && r[|r| - 1] == s[|s| - 1])
            && (forall i :: 0 <= i < |r| ==> r[i] in s)
    decreases |s|
  {
    if |s| >= 2 {
      var t := s[1..];
      CollapseShape(t);
      var r := CollapseSpaces(s);
      if s[0] == ' ' && s[1] == ' ' {
        assert r == CollapseSpaces(t);
      } else {
        var rt := CollapseSpaces(t);
        assert r == [s[0]] + rt;
        forall i | 0 <= i < |r| - 1 ensures !(r[i] == ' ' && r[i + 1] == ' ') {
          if i > 0 {
            assert r[i] == rt[i - 1] && r[i + 1] == rt[i];
          } else {
            assert r[1] == rt[0] == t[0] == s[1];
          }
        }
        forall i | 0 <= i < |r| ensures r[i] in s {
          if i > 0 {
            assert r[i] == rt[i - 1];
            assert rt[i - 1] in t;
          }
        }
      }
    }
  }

  // ---------------------------------------------------------------------------
  // What the canonical form looks like

  /** The replacement step turns every underscore into a space and nothing else. */
  lemma UnderscoresGone(name: string)
    ensures var u := Replace(name, "_", " ");
            |u| == |name| && forall i :: 0 <= i < |u| ==> u[i] != '_'
  {
    ReplaceChar(name, '_', ' ');
  }

  /** Upper-casing a character never makes or unmakes a space or an underscore. */
  lemma ToUpperKeepsClass(x: char)
    ensures IsSpace(ToUpper(x)) == IsSpace(x)
    ensures (ToUpper(x) == ' ') == (x == ' ')
    ensures (ToUpper(x) == '_') == (x == '_')
    ensures ToUpper(ToUpper(x)) == ToUpper(x)
  {
  }

  predicate NoUnderscore(s: string) {
    forall i :: 0 <= i < |s| ==> s[i] != '_'
  }

  predicate Trimmed(s: string) {
    s == [] || (!IsSpace(s[0]) && !IsSpace(s[|s| - 1]))
  }

  lemma UpperFirstKeeps(c: string)
    requires NoDoubleSpace(c) && NoUnderscore(c) && Trimmed(c)
    ensures var r := UpperFirst(c);
            NoDoubleSpace(r) && NoUnderscore(r) && Trimmed(r)
            && (r != [] ==> r[0] == ToUpper(r[0]))
  {
    var r := UpperFirst(c);
    if r != [] {
      ToUpperKeepsClass(c[0]);
      assert forall i :: 1 <= i < |r| ==> r[i] == c[i];
    }
  }

  lemma StripNoUnderscore(u: string)
    requires NoUnderscore(u)
    ensures NoUnderscore(Strip(u))
  {
    var st := Strip(u);
    StripIsSlice(u);
    forall i | 0 <= i < |st| ensures st[i] != '_' {
      assert st[i] == u[LeadingSpace(u) + i];
    }
  }

  lemma CollapseKeeps(st: string)
    requires NoUnderscore(st) && Trimmed(st)
    ensures var c := CollapseSpaces(st);
            NoDoubleSpace(c) && NoUnderscore(c) && Trimmed(c)
  {
    CollapseShape(st);
  }

  /** The canonical form has no underscore, no two adjacent spaces, no
      whitespace at either end, and it begins with an upper-cased character;
      the empty name stays empty. */
  lemma MediawikiFormShape(name: string)
    ensures var r := MediawikiForm(name);
            && (name == "" ==> r == "")
            && NoUnderscore(r)
            && NoDoubleSpace(r)
            && Trimmed(r)
            && (r != [] ==> !IsAsciiLower(r[0]) && r[0] == ToUpper(r[0]))
  {
    if name != "" {
      var u := Replace(name, "_", " ");
      UnderscoresGone(name);
      StripNoUnderscore(u);
      CollapseKeeps(Strip(u));
      UpperFirstKeeps(CollapseSpaces(Strip(u)));
    }
  }

  /** Two tidy names that differ after their first character have different
      canonical forms. */
  lemma TidyFormsDiffer(a: string, b: string, k: int)
    requires NoUnderscore(a) && NoDoubleSpace(a) && Trimmed(a)
    requires NoUnderscore(b) && NoDoubleSpace(b) && Trimmed(b)
    requires 0 < k < |a| && k < |b| && a[k] != b[k]
    ensures MediawikiForm(a) != MediawikiForm(b)
  {
    TidyName(a);
    TidyName(b);
    assert MediawikiForm(a)[k] == a[k];
  }

  /** Canonicalising a canonical name changes nothing. */
  lemma MediawikiFormIdempotent(name: string)
    ensures MediawikiForm(MediawikiForm(name)) == MediawikiForm(name)
  {
    var r := MediawikiForm(name);
    MediawikiFormShape(name);
    if r != "" {
      TidyName(r);
      assert UpperFirst(r) == [ToUpper(r[0])] + r[1..] == r;
    }
  }

  /** A name without underscores, padding or double spaces only has its first
      character upper-cased. */
  lemma TidyName(r: string)
    requires NoUnderscore(r) && NoDoubleSpace(r) && Trimmed(r)
    ensures MediawikiForm(r) == UpperFirst(r)
  {
    if r != "" {
      forall k ensures !OccursAt(r, "_", k) {
        if 0 <= k < |r| {
          assert r[k..k + 1] == [r[k]];
        }
      }
      assert Replace(r, "_", " ") == r;
      StripStripped(r);
      CollapseFixed(r);
    }
  }

  // ---------------------------------------------------------------------------
  // Padding with spaces and underscores

  /** Whitespace and underscores count as padding in MediaWiki names. */
  predicate IsPadding(c: char) {
    c == '_' || IsSpace(c)
  }

  /** The formula without the early return gives the same value, even for "". */
  lemma MediawikiFormUniform(name: string)
    ensures MediawikiForm(name) == UpperFirst(CollapseSpaces(Strip(Replace(name, "_", " "))))
  {
  }

  lemma ReplaceUnderscoreCons(c: char, s: string)
    ensures Replace([c] + s, "_", " ") == [if c == '_' then ' ' else c] + Replace(s, "_", " ")
  {
    ReplaceChar([c] + s, '_', ' ');
    ReplaceChar(s, '_', ' ');
  }

  lemma ReplaceUnderscoreSnoc(s: string, c: char)
    ensures Replace(s + [c], "_", " ") == Replace(s, "_", " ") + [if c == '_' then ' ' else c]
  {
    ReplaceChar(s + [c], '_', ' ');
    ReplaceChar(s, '_', ' ');
  }

  /** A padding character in front of a name does not change its form. */
  lemma PadLeft(c: char, s: string)
    requires IsPadding(c)
    ensures MediawikiForm([c] + s) == MediawikiForm(s)
  {
    MediawikiFormUniform([c] + s);
    MediawikiFormUniform(s);
    ReplaceUnderscoreCons(c, s);
    StripPadLeft(if c == '_' then ' ' else c, Replace(s, "_", " "));
  }

  /** A padding character after a name does not change its form. */
  lemma PadRight(s: string, c: char)
    requires IsPadding(c)
    ensures MediawikiForm(s + [c]) == MediawikiForm(s)
  {
    MediawikiFormUniform(s + [c]);
    MediawikiFormUniform(s);
    ReplaceUnderscoreSnoc(s, c);
    StripPadRight(Replace(s, "_", " "), if c == '_' then ' ' else c);
  }

  lemma {:induction false} PadLeftMany(left: string, s: string)
    requires forall i :: 0 <= i < |left| ==> IsPadding(left[i])
    ensures MediawikiForm(left + s) == MediawikiForm(s)
    decreases |left|
  {
    if left == [] {
      assert left + s == s;
    } else {
      var rest := left[1..];
      assert forall i :: 0 <= i < |rest| ==> IsPadding(rest[i]) by {
        forall i | 0 <= i < |rest| ensures IsPadding(rest[i]) {
          assert rest[i] == left[i + 1];
        }
      }
      PadLeftMany(rest, s);
      assert left + s == [left[0]] + (rest + s);
      PadLeft(left[0], rest + s);
    }
  }

  lemma {:induction false} PadRightMany(s: string, right: string)
    requires forall i :: 0 <= i < |right| ==> IsPadding(right[i])
    ensures MediawikiForm(s + right) == MediawikiForm(s)
    decreases |right|
  {
    if right == [] {
      assert s + right == s;
    } else {
      var rest := right[..|right| - 1];
      PadRightMany(s, rest);
      assert s + right == (s + rest) + [right[|right| - 1]];
      PadRight(s + rest, right[|right| - 1]);
    }
  }

  /** Any amount of padding on either side is ignored. */
  lemma PaddingIgnored(left: string, s: string, right: string)
    requires forall i :: 0 <= i < |left| ==> IsPadding(left[i])
    requires forall i :: 0 <= i < |right| ==> IsPadding(right[i])
    ensures MediawikiForm(left + s + right) == MediawikiForm(s)
  {
    PadRightMany(left + s, right);
    PadLeftMany(left, s);
  }

  /** Padding around a one-letter name: `" _x_ "` and `"x"` have the same form `"X"`. */
  lemma PaddedExample()
    ensures MediawikiForm(" _x_ ") == MediawikiForm("x") == "X"
  {
    PaddingIgnored(" _", "x", "_ ");
    assert " _" + "x" + "_ " == " _x_ ";
    assert Replace("x", "_", " ") == "x";
  }
}
