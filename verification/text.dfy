/**
 * String primitives of the Python runtime that the audit relies on, restricted
 * to ASCII: `str.isspace`, `upper`/`lower` of one character, `strip`, `find`,
 * `in`, `replace`, `rstrip(chars)`, `isdigit`, `str(int)` and the ordering
 * Python uses to compare two strings.
 */
module Text {

  datatype Option<+T> = None | Some(value: T)

  /** Python's `str.isspace` restricted to ASCII: space, \t \n \v \f \r and the
      four separator controls 0x1C..0x1F. */
  predicate IsSpace(c: char) {
    c == ' ' || 9 <= c as int <= 13 || 28 <= c as int <= 31
  }

  predicate IsAsciiLower(c: char) { 'a' <= c <= 'z' }
  predicate IsAsciiUpper(c: char) { 'A' <= c <= 'Z' }

  function ToUpper(c: char): (u: char)
    ensures IsAsciiLower(c) ==> IsAsciiUpper(u) && u as int == c as int - 32
    ensures !IsAsciiLower(c) ==> u == c
  {
    if IsAsciiLower(c) then (c as int - 32) as char else c
  }

  function ToLower(c: char): (l: char)
    ensures IsAsciiUpper(c) ==> IsAsciiLower(l) && l as int == c as int + 32
    ensures !IsAsciiUpper(c) ==> l == c
  {
    if IsAsciiUpper(c) then (c as int + 32) as char else c
  }

  /** `s.lower()`: every ASCII capital replaced by its small letter. */
  function Lower(s: string): (r: string)
    ensures |r| == |s|
    ensures forall i :: 0 <= i < |s| ==> r[i] == ToLower(s[i])
  {
    if s == [] then [] else [ToLower(s[0])] + Lower(s[1..])
  }

  /** `s.isdigit()`: false for the empty string. */
  predicate IsDigits(s: string) {
    |s| > 0 && forall i :: 0 <= i < |s| ==> '0' <= s[i] <= '9'
  }

  predicate AllSpace(s: string) {
    forall i :: 0 <= i < |s| ==> IsSpace(s[i])
  }

  /** Leading whitespace removed (`lstrip()`). */
  function TrimLeft(s: string): (r: string)
    ensures |r| <= |s|
    ensures r == [] || !IsSpace(r[0])
  {
    if s != [] && IsSpace(s[0]) then TrimLeft(s[1..]) else s
  }

  lemma {:induction false} TrimLeftSlice(s: string)
    ensures TrimLeft(s) == s[|s| - |TrimLeft(s)|..]
    ensures AllSpace(s[..|s| - |TrimLeft(s)|])
  {
    if s != [] && IsSpace(s[0]) {
      TrimLeftSlice(s[1..]);
      assert s[..|s| - |TrimLeft(s)|] == [s[0]] + s[1..][..|s[1..]| - |TrimLeft(s[1..])|];
    }
  }

  /** Trailing whitespace removed (`rstrip()`). */
  function TrimRight(s: string): (r: string)
    ensures |r| <= |s|
    ensures r == [] || !IsSpace(r[|r| - 1])
  {
    if s != [] && IsSpace(s[|s| - 1]) then TrimRight(s[..|s| - 1]) else s
  }

  lemma {:induction false} TrimRightSlice(s: string)
    ensures TrimRight(s) == s[..|TrimRight(s)|]
    ensures AllSpace(s[|TrimRight(s)|..])
  {
    if s != [] && IsSpace(s[|s| - 1]) {
      TrimRightSlice(s[..|s| - 1]);
      assert s[|TrimRight(s)|..] == s[..|s| - 1][|TrimRight(s)|..] + [s[|s| - 1]];
    }
  }

  /** Number of leading whitespace characters of `s`. */
  function LeadingSpace(s: string): (n: nat)
    ensures n <= |s| && AllSpace(s[..n])
    ensures n == |s| || !IsSpace(s[n])
  {
    TrimLeftSlice(s);
    |s| - |TrimLeft(s)|
  }

  /** `s.strip()`: the part of `s` between leading and trailing whitespace. */
  function Strip(s: string): (r: string)
    ensures |r| <= |s|
    ensures r == [] || (!IsSpace(r[0]) && !IsSpace(r[|r| - 1]))
  {
    TrimRightSlice(TrimLeft(s));
    TrimRight(TrimLeft(s))
  }

  /** What `strip()` removes is whitespace at the two ends, and nothing else. */
  lemma StripIsSlice(s: string)
    ensures LeadingSpace(s) + |Strip(s)| <= |s|
    ensures Strip(s) == s[LeadingSpace(s)..LeadingSpace(s) + |Strip(s)|]
    ensures AllSpace(s[LeadingSpace(s) + |Strip(s)|..])
  {
    var t := TrimLeft(s);
    var r := TrimRight(t);
    TrimLeftSlice(s);
    TrimRightSlice(t);
    assert s[LeadingSpace(s) + |r|..] == t[|r|..];
  }

  /** Stripping a string that has no whitespace at either end leaves it as it is. */
  lemma StripStripped(s: string)
    requires s == [] || (!IsSpace(s[0]) && !IsSpace(s[|s| - 1]))
    ensures Strip(s) == s
  {
  }

  /** Whitespace added at either end disappears again under `strip()`. */
  lemma {:induction false} StripPadLeft(c: char, s: string)
    requires IsSpace(c)
    ensures Strip([c] + s) == Strip(s)
  {
    assert ([c] + s)[1..] == s;
  }

  lemma {:induction false} TrimLeftPadRight(s: string, c: char)
    requires IsSpace(c)
    ensures TrimLeft(s + [c]) == if AllSpace(s) then [] else TrimLeft(s) + [c]
    decreases |s|
  {
    if s == [] {
      assert TrimLeft([c]) == TrimLeft([]);
    } else if IsSpace(s[0]) {
      var t := s[1..];
      assert (s + [c])[1..] == t + [c];
      assert TrimLeft(s + [c]) == TrimLeft(t + [c]);
      assert TrimLeft(s) == TrimLeft(t);
      TrimLeftPadRight(t, c);
      assert AllSpace(s) <==> AllSpace(t) by {
        if AllSpace(t) {
          forall i | 0 <= i < |s| ensures IsSpace(s[i]) {
            if i > 0 { assert s[i] == t[i - 1]; }
          }
        }
      }
    } else {
      assert !AllSpace(s) by { assert !IsSpace(s[0]); }
    }
  }

  lemma {:induction false} StripPadRight(s: string, c: char)
    requires IsSpace(c)
    ensures Strip(s + [c]) == Strip(s)
  {
    TrimLeftPadRight(s, c);
    if AllSpace(s) {
      TrimLeftAllSpace(s);
    } else {
      var t := TrimLeft(s);
      assert (t + [c])[..|t + [c]| - 1] == t;
    }
  }

  lemma {:induction false} TrimLeftAllSpace(s: string)
    requires AllSpace(s)
    ensures TrimLeft(s) == []
    decreases |s|
  {
    if s != [] {
      TrimLeftAllSpace(s[1..]);
    }
  }

  /** `pat` occurs in `s` at index `k`. */
  predicate OccursAt(s: string, pat: string, k: int) {
    0 <= k && k + |pat| <= |s| && s[k..k + |pat|] == pat
  }

  /** An occurrence stays where it is when text is added after it. */
  lemma OccursInLonger(a: string, b: string, pat: string, at: int)
    requires OccursAt(a, pat, at)
    ensures OccursAt(a + b, pat, at)
  {
    assert (a + b)[at..at + |pat|] == a[at..at + |pat|];
  }

  /** An occurrence moves right by `|a|` when `a` is put in front. */
  lemma OccursAfter(a: string, b: string, pat: string, at: int)
    requires OccursAt(b, pat, at)
    ensures OccursAt(a + b, pat, |a| + at)
  {
    assert (a + b)[|a| + at..|a| + at + |pat|] == b[at..at + |pat|];
  }

  /** A three-character pattern occurs where its three characters do. */
  lemma Occurs3(s: string, pat: string, k: int)
    requires |pat| == 3
    ensures OccursAt(s, pat, k) <==>
              0 <= k && k + 3 <= |s| && s[k] == pat[0] && s[k + 1] == pat[1] && s[k + 2] == pat[2]
  {
    if 0 <= k && k + 3 <= |s| && s[k] == pat[0] && s[k + 1] == pat[1] && s[k + 2] == pat[2] {
      assert s[k..k + 3] == pat;
    }
  }

  /** `s.find(pat, start)`: the least index at or after `start` where `pat`
      occurs, or -1 when there is none. */
  function Find(s: string, pat: string, start: nat): int
    decreases |s| - start
  {
    if start + |pat| > |s| then -1
    else if s[start..start + |pat|] == pat then start
    else Find(s, pat, start + 1)
  }

  /** `Find` gives the first occurrence at or after `start`, and -1 exactly
      when there is none. */
  lemma {:induction false} FindSpec(s: string, pat: string, start: nat)
    ensures var r := Find(s, pat, start);
            && (r == -1 || (start <= r && OccursAt(s, pat, r)))
            && (forall k :: start <= k && (r == -1 || k < r) ==> !OccursAt(s, pat, k))
    decreases |s| - start
  {
    if start + |pat| <= |s| && s[start..start + |pat|] != pat {
      FindSpec(s, pat, start + 1);
    }
  }

  /** `s.startswith(p)`. */
  predicate StartsWith(s: string, p: string) {
    |p| <= |s| && s[..|p|] == p
  }

  /** `s.endswith(p)`. */
  predicate EndsWith(s: string, p: string) {
    |p| <= |s| && s[|s| - |p|..] == p
  }

  /** `pat in s`. */
  predicate Contains(s: string, pat: string) {
    Find(s, pat, 0) != -1
  }

  lemma ContainsIff(s: string, pat: string)
    ensures Contains(s, pat) <==> exists k :: OccursAt(s, pat, k)
  {
    FindSpec(s, pat, 0);
  }

  /** `s.replace(pat, rep)`: occurrences of `pat` replaced from left to right,
      never overlapping. */
  function Replace(s: string, pat: string, rep: string): (r: string)
    requires |pat| > 0
    ensures (forall k :: !OccursAt(s, pat, k)) ==> r == s
    decreases |s|
  {
    if |s| < |pat| then s
    else if s[..|pat|] == pat then
      assert OccursAt(s, pat, 0);
      rep + Replace(s[|pat|..], pat, rep)
    else
      var t := Replace(s[1..], pat, rep);
      assert (forall k :: !OccursAt(s, pat, k)) ==> forall k :: !OccursAt(s[1..], pat, k) by {
        forall k | OccursAt(s[1..], pat, k) ensures OccursAt(s, pat, k + 1) {
          assert s[k + 1..k + 1 + |pat|] == s[1..][k..k + |pat|];
        }
      }
      [s[0]] + t
  }

  /** Replacing one character by another, as `s.replace("_", " ")` does. */
  lemma {:induction false} ReplaceChar(s: string, a: char, b: char)
    ensures |Replace(s, [a], [b])| == |s|
    ensures forall i :: 0 <= i < |s| ==>
              Replace(s, [a], [b])[i] == if s[i] == a then b else s[i]
    decreases |s|
  {
    if |s| > 0 {
      ReplaceChar(s[1..], a, b);
    }
  }

  /** `s.rstrip(chars)`: trailing characters from `chars` removed. */
  function RStripChars(s: string, chars: set<char>): (r: string)
    ensures |r| <= |s| && r == s[..|r|]
    ensures forall i :: |r| <= i < |s| ==> s[i] in chars
    ensures r == [] || r[|r| - 1] !in chars
  {
    if s != [] && s[|s| - 1] in chars then RStripChars(s[..|s| - 1], chars) else s
  }

  function Digit(d: nat): (c: char)
    requires d < 10
    ensures '0' <= c <= '9'
  {
    ['0', '1', '2', '3', '4', '5', '6', '7', '8', '9'][d]
  }

  /** `str(n)` for a natural number. */
  function Decimal(n: nat): (r: string)
    ensures IsDigits(r)
    ensures r[0] == '0' ==> n == 0
  {
    if n < 10 then [Digit(n)] else Decimal(n / 10) + [Digit(n % 10)]
  }

  function DigitsValue(s: string): nat
    requires forall i :: 0 <= i < |s| ==> '0' <= s[i] <= '9'
  {
    if s == [] then 0 else 10 * DigitsValue(s[..|s| - 1]) + (s[|s| - 1] as int - '0' as int)
  }

  /** `int(str(n)) == n`. */
  lemma {:induction false} DecimalRoundTrip(n: nat)
    ensures DigitsValue(Decimal(n)) == n
  {
    if n >= 10 {
      DecimalRoundTrip(n / 10);
      var r := Decimal(n);
      assert r[..|r| - 1] == Decimal(n / 10);
    }
  }

  /** Python's string comparison `a <= b`: lexicographic on code points, a
      proper prefix coming first. */
  predicate LessEq(a: string, b: string) {
    a == [] || (b != [] && (a[0] < b[0] || (a[0] == b[0] && LessEq(a[1..], b[1..]))))
  }

  lemma {:induction false} LessEqReflexive(a: string)
    ensures LessEq(a, a)
  {
    if a != [] {
      LessEqReflexive(a[1..]);
    }
  }

  lemma {:induction false} LessEqAntisymmetric(a: string, b: string)
    requires LessEq(a, b) && LessEq(b, a)
    ensures a == b
  {
    if a != [] && b != [] {
      LessEqAntisymmetric(a[1..], b[1..]);
      assert a == [a[0]] + a[1..];
      assert b == [b[0]] + b[1..];
    }
  }

  lemma {:induction false} LessEqTransitive(a: string, b: string, c: string)
    requires LessEq(a, b) && LessEq(b, c)
    ensures LessEq(a, c)
  {
    if a != [] && a[0] == b[0] && b[0] == c[0] {
      LessEqTransitive(a[1..], b[1..], c[1..]);
    }
  }

  lemma {:induction false} LessEqTotal(a: string, b: string)
    ensures LessEq(a, b) || LessEq(b, a)
  {
    if a != [] && b != [] && a[0] == b[0] {
      LessEqTotal(a[1..], b[1..]);
    }
  }
}
