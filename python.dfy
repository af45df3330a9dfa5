/**
 The Python built-ins the feedback parser relies on, with their Python
 semantics: the `str` methods `find`, `strip()`, `lstrip(chars)`,
 `startswith` and `split(sep)`, slicing with non-negative bounds, and a
 list comprehension with a filter. Strings are `seq<char>`.
 */
module Python {

  /** The characters for which Python's `str.isspace()` holds; `strip()`
      with no argument removes exactly these. */
  const Whitespace: set<char> :=
    {'\t', '\n', '\U{000B}', '\U{000C}', '\r',
     '\U{001C}', '\U{001D}', '\U{001E}', '\U{001F}', ' ',
     '\U{0085}', '\U{00A0}', '\U{1680}',
     '\U{2000}', '\U{2001}', '\U{2002}', '\U{2003}', '\U{2004}', '\U{2005}',
     '\U{2006}', '\U{2007}', '\U{2008}', '\U{2009}', '\U{200A}',
     '\U{2028}', '\U{2029}', '\U{202F}', '\U{205F}', '\U{3000}'}

  predicate IsSpace(c: char) {
    c in Whitespace
  }

  // ---------------------------------------------------------------------
  // Substring search

  /** `pat` occurs in `s` starting at index `j`. */
  predicate OccursAt(s: string, pat: string, j: int) {
    0 <= j && j + |pat| <= |s| && s[j..j + |pat|] == pat
  }

  /** `pat` occurs somewhere in `s` (Python's `pat in s`). */
  ghost predicate Contains(s: string, pat: string) {
    exists j :: OccursAt(s, pat, j)
  }

  /** Python's `s.find(pat, i)`: the lowest index at or after `i` where `pat`
      occurs, or -1. */
  function FindFrom(s: string, pat: string, i: nat): (r: int)
    requires i <= |s|
    ensures r == -1 || (i <= r && OccursAt(s, pat, r))
    ensures forall j :: i <= j && (r == -1 || j < r) ==> !OccursAt(s, pat, j)
    decreases |s| - i
  {
    if i + |pat| > |s| then -1
    else if s[i..i + |pat|] == pat then i
    else if i == |s| then -1
    else FindFrom(s, pat, i + 1)
  }

  /** Python's `s.find(pat)`: the lowest index where `pat` occurs, or -1. */
  function Find(s: string, pat: string): (r: int)
    ensures r == -1 <==> !Contains(s, pat)
    ensures r != -1 ==> OccursAt(s, pat, r)
    ensures forall j :: 0 <= j < r ==> !OccursAt(s, pat, j)
  {
    FindFrom(s, pat, 0)
  }

  /** An occurrence with no earlier occurrence is what `find` returns. */
  lemma FindIsFirst(s: string, pat: string, i: int)
    requires OccursAt(s, pat, i)
    requires forall j :: 0 <= j < i ==> !OccursAt(s, pat, j)
    ensures Find(s, pat) == i
  {
    var r := Find(s, pat);
    assert r != -1;
    if r < i {
      assert OccursAt(s, pat, r);
    }
  }

  /** A pattern that does not contain `c` cannot occur across a `c`: every
      occurrence in `a + [c] + b` lies inside `a` or inside `b`. */
  lemma {:induction false} NotContainsAcross(a: string, c: char, b: string, pat: string)
    requires c !in pat
    requires !Contains(a, pat) && !Contains(b, pat)
    ensures !Contains(a + [c] + b, pat)
  {
    var s := a + [c] + b;
    forall j | 0 <= j && j + |pat| <= |s|
      ensures !OccursAt(s, pat, j)
    {
      if j + |pat| <= |a| {
        assert s[j..j + |pat|] == a[j..j + |pat|];
        assert !OccursAt(a, pat, j);
      } else if j > |a| {
        assert s[j..j + |pat|] == b[j - |a| - 1..j - |a| - 1 + |pat|];
        assert !OccursAt(b, pat, j - |a| - 1);
      } else {
        assert s[j..j + |pat|][|a| - j] == c;
      }
    }
  }

  /** `find` skips a prefix that does not contain the pattern when the
      prefix is separated from the first occurrence by a character that is
      not in the pattern. */
  lemma {:induction false} FindAfterSeparator(a: string, c: char, pat: string, rest: string)
    requires c !in pat
    requires !Contains(a, pat)
    ensures Find(a + [c] + pat + rest, pat) == |a| + 1
  {
    var s := a + [c] + pat + rest;
    assert s[|a| + 1..|a| + 1 + |pat|] == pat;
    forall j | 0 <= j < |a| + 1 && j + |pat| <= |s|
      ensures !OccursAt(s, pat, j)
    {
      if j + |pat| <= |a| {
        assert s[j..j + |pat|] == a[j..j + |pat|];
        assert !OccursAt(a, pat, j);
      } else {
        assert s[j..j + |pat|][|a| - j] == c;
      }
    }
    FindIsFirst(s, pat, |a| + 1);
  }

  /** A string shorter than the pattern does not contain it. */
  lemma ShortNotContains(s: string, pat: string)
    requires |s| < |pat|
    ensures !Contains(s, pat)
  {
  }

  // ---------------------------------------------------------------------
  // Slicing

  /** The middle of a concatenation, sliced back out. */
  lemma MiddleOfConcat<T>(a: seq<T>, b: seq<T>, c: seq<T>)
    ensures (a + b + c)[|a|..|a| + |b|] == b
  {
  }

  /** Python's `s[a:b]` for non-negative bounds: both bounds are clamped to
      the length, and the slice is empty when the start is not before the
      end. */
  function Slice(s: string, a: nat, b: nat): (r: string)
    ensures |r| <= |s|
    ensures a < b <= |s| ==> r == s[a..b]
    ensures b <= a ==> r == []
    ensures a < |s| < b ==> r == s[a..]
  {
    var lo := if a < |s| then a else |s|;
    var hi := if b < |s| then b else |s|;
    if lo < hi then s[lo..hi] else []
  }

  /** Python's `s[a:]` for a non-negative start. */
  function SliceFrom(s: string, a: nat): (r: string)
    ensures |r| <= |s|
    ensures a <= |s| ==> r == s[a..]
    ensures |s| <= a ==> r == []
  {
    if a < |s| then s[a..] else []
  }

  // ---------------------------------------------------------------------
  // Stripping

  /** Length of the longest prefix of `s` made of characters in `chars`. */
  function LeadingRun(s: string, chars: set<char>): (n: nat)
    ensures n <= |s|
    ensures forall k :: 0 <= k < n ==> s[k] in chars
    ensures n == |s| || s[n] !in chars
  {
    if |s| > 0 && s[0] in chars then 1 + LeadingRun(s[1..], chars) else 0
  }

  /** Length of the longest suffix of `s` made of characters in `chars`. */
  function TrailingRun(s: string, chars: set<char>): (n: nat)
    ensures n <= |s|
    ensures forall k :: |s| - n <= k < |s| ==> s[k] in chars
    ensures n == |s| || s[|s| - n - 1] !in chars
  {
    if |s| > 0 && s[|s| - 1] in chars then 1 + TrailingRun(s[..|s| - 1], chars) else 0
  }

  /** Python's `s.lstrip(chars)`: drops the longest prefix made of
      characters in `chars`. */
  function LStrip(s: string, chars: set<char>): (r: string)
    ensures r == [] || r[0] !in chars
  {
    s[LeadingRun(s, chars)..]
  }

  /** Python's `s.rstrip(chars)`: drops the longest suffix made of
      characters in `chars`. */
  function RStrip(s: string, chars: set<char>): (r: string)
    ensures r == [] || r[|r| - 1] !in chars
  {
    s[..|s| - TrailingRun(s, chars)]
  }

  /** `lstrip(chars)` returns a suffix of its input, and everything it drops
      is in `chars`. */
  lemma LStripIsSuffix(s: string, chars: set<char>)
    ensures var r := LStrip(s, chars);
      |r| <= |s| && r == s[|s| - |r|..]
      && forall k :: 0 <= k < |s| - |r| ==> s[k] in chars
  {
    var n := LeadingRun(s, chars);
    assert |LStrip(s, chars)| == |s| - n;
  }

  /** These properties pin `lstrip(chars)` down: a suffix of `s` whose
      dropped prefix is all in `chars` and whose first character is not is
      the result of `lstrip(chars)`. */
  lemma LStripUnique(s: string, chars: set<char>, r: string)
    requires |r| <= |s| && r == s[|s| - |r|..]
    requires forall k :: 0 <= k < |s| - |r| ==> s[k] in chars
    requires r == [] || r[0] !in chars
    ensures r == LStrip(s, chars)
  {
    var n := |s| - |r|;
    assert n == |s| || s[n] == r[0];
    LeadingRunExact(s, chars, n);
  }

  /** `rstrip(chars)` returns a prefix of its input, and everything it drops
      is in `chars`. */
  lemma RStripIsPrefix(s: string, chars: set<char>)
    ensures var r := RStrip(s, chars);
      |r| <= |s| && r == s[..|r|]
      && forall k :: |r| <= k < |s| ==> s[k] in chars
  {
    var n := TrailingRun(s, chars);
    assert |RStrip(s, chars)| == |s| - n;
  }

  /** The mirror of `LStripUnique` for `rstrip(chars)`. */
  lemma RStripUnique(s: string, chars: set<char>, r: string)
    requires |r| <= |s| && r == s[..|r|]
    requires forall k :: |r| <= k < |s| ==> s[k] in chars
    requires r == [] || r[|r| - 1] !in chars
    ensures r == RStrip(s, chars)
  {
    var n := |s| - |r|;
    assert n == |s| || s[|s| - n - 1] == r[|r| - 1];
    TrailingRunExact(s, chars, n);
  }

  /** Python's `s.strip()`: drops leading and trailing whitespace. */
  function Strip(s: string): (r: string)
    ensures |r| <= |s|
    ensures r == [] || (!IsSpace(r[0]) && !IsSpace(r[|r| - 1]))
  {
    RStrip(LStrip(s, Whitespace), Whitespace)
  }

  /** A string with no whitespace at either end. */
  predicate IsStripped(s: string) {
    s == [] || (!IsSpace(s[0]) && !IsSpace(s[|s| - 1]))
  }

  /** A run that ends where the characters stop being in `chars` is the
      longest one. */
  lemma {:induction false} LeadingRunExact(s: string, chars: set<char>, n: nat)
    requires n <= |s|
    requires forall k :: 0 <= k < n ==> s[k] in chars
    requires n == |s| || s[n] !in chars
    ensures LeadingRun(s, chars) == n
  {
  }

  lemma {:induction false} TrailingRunExact(s: string, chars: set<char>, n: nat)
    requires n <= |s|
    requires forall k :: |s| - n <= k < |s| ==> s[k] in chars
    requires n == |s| || s[|s| - n - 1] !in chars
    ensures TrailingRun(s, chars) == n
  {
  }

  /** `strip()` returns a contiguous piece of its input, and what it drops on
      either side is whitespace. */
  lemma StripIsInfix(s: string)
    ensures var lo, r := LeadingRun(s, Whitespace), Strip(s);
      lo + |r| <= |s| && r == s[lo..lo + |r|]
      && (forall k :: 0 <= k < lo ==> IsSpace(s[k]))
      && (forall k :: lo + |r| <= k < |s| ==> IsSpace(s[k]))
  {
    StripSlice(s);
    StripDropsSpace(s);
  }

  /** What `strip()` keeps is the slice starting after the leading run. */
  lemma StripSlice(s: string)
    ensures var lo := LeadingRun(s, Whitespace);
      lo + |Strip(s)| <= |s| && Strip(s) == s[lo..lo + |Strip(s)|]
  {
    var lo := LeadingRun(s, Whitespace);
    var l := s[lo..];
    var t := TrailingRun(l, Whitespace);
    assert Strip(s) == l[..|l| - t];
    assert l[..|l| - t] == s[lo..lo + |l| - t];
  }

  /** Everything after what `strip()` keeps is whitespace. */
  lemma StripDropsSpace(s: string)
    ensures var lo := LeadingRun(s, Whitespace);
      lo + |Strip(s)| <= |s| && forall k :: lo + |Strip(s)| <= k < |s| ==> IsSpace(s[k])
  {
    var lo := LeadingRun(s, Whitespace);
    var l := s[lo..];
    var t := TrailingRun(l, Whitespace);
    assert |Strip(s)| == |l| - t;
    forall k | lo + |l| - t <= k < |s| ensures IsSpace(s[k]) {
      assert s[k] == l[k - lo];
    }
  }

  /** `strip()` leaves an already stripped string alone. */
  lemma {:induction false} StripOfStripped(s: string)
    requires IsStripped(s)
    ensures Strip(s) == s
  {
    if s != [] {
      assert LeadingRun(s, Whitespace) == 0;
      assert TrailingRun(s, Whitespace) == 0;
    }
  }

  /** So `strip()` is idempotent. */
  lemma StripIdempotent(s: string)
    ensures Strip(Strip(s)) == Strip(s)
  {
    StripOfStripped(Strip(s));
  }

  /** `strip()` yields the empty string exactly when the input is blank. */
  lemma StripEmptyIffBlank(s: string)
    ensures Strip(s) == [] <==> forall k :: 0 <= k < |s| ==> IsSpace(s[k])
  {
    StripIsInfix(s);
  }

  /** Surrounding whitespace is removed and nothing else. */
  lemma {:induction false} StripPadded(pre: string, x: string, post: string)
    requires forall k :: 0 <= k < |pre| ==> IsSpace(pre[k])
    requires forall k :: 0 <= k < |post| ==> IsSpace(post[k])
    requires IsStripped(x)
    ensures Strip(pre + x + post) == x
  {
    var s := pre + x + post;
    if x == [] {
      assert s == pre + post;
      forall k | 0 <= k < |s| ensures IsSpace(s[k]) {
        if k >= |pre| { assert s[k] == post[k - |pre|]; }
      }
      StripEmptyIffBlank(s);
    } else {
      LeadingRunExact(s, Whitespace, |pre|);
      var l := s[|pre|..];
      assert l == x + post;
      TrailingRunExact(l, Whitespace, |post|);
      assert l[..|l| - |post|] == x;
    }
  }

  /** Python's `s.startswith(p)`. */
  predicate StartsWith(s: string, p: string) {
    |p| <= |s| && s[..|p|] == p
  }

  /** `s.startswith(p)` holds exactly when `s.find(p)` returns 0. */
  lemma StartsWithFind(s: string, p: string)
    ensures StartsWith(s, p) <==> Find(s, p) == 0
  {
    if StartsWith(s, p) {
      assert OccursAt(s, p, 0);
      FindIsFirst(s, p, 0);
    }
  }

  // ---------------------------------------------------------------------
  // Splitting

  /** Python's `s.split(sep)` for a one-character separator: the pieces
      between separators, always at least one. */
  function Split(s: string, sep: char): (r: seq<string>)
    ensures |r| >= 1
    ensures forall i :: 0 <= i < |r| ==> sep !in r[i] && |r[i]| <= |s|
  {
    if s == [] then [[]]
    else
      var t := Split(s[1..], sep);
      if s[0] == sep then [[]] + t
      else [[s[0]] + t[0]] + t[1..]
  }

  /** Python's `sep.join(parts)`. */
  function Join(parts: seq<string>, sep: char): (r: string)
  {
    if parts == [] then []
    else if |parts| == 1 then parts[0]
    else parts[0] + [sep] + Join(parts[1..], sep)
  }

  /** Joining the pieces of a split gives back the string. */
  lemma {:induction false} JoinSplit(s: string, sep: char)
    ensures Join(Split(s, sep), sep) == s
  {
    if s != [] {
      var t := Split(s[1..], sep);
      JoinSplit(s[1..], sep);
      if s[0] == sep {
        assert Split(s, sep)[1..] == t;
      } else {
        var r := Split(s, sep);
        if |t| == 1 {
          assert r == [[s[0]] + t[0]];
        } else {
          assert r[1..] == t[1..];
          assert Join(t, sep) == t[0] + [sep] + Join(t[1..], sep);
        }
      }
    }
  }

  /** Splitting a join of separator-free pieces gives back the pieces. */
  lemma {:induction false} SplitJoin(parts: seq<string>, sep: char)
    requires |parts| >= 1
    requires forall i :: 0 <= i < |parts| ==> sep !in parts[i]
    ensures Split(Join(parts, sep), sep) == parts
  {
    if |parts| == 1 {
      SplitNoSep(parts[0], sep);
    } else {
      SplitJoin(parts[1..], sep);
      SplitPrefix(parts[0], sep, Join(parts[1..], sep));
    }
  }

  lemma {:induction false} SplitNoSep(s: string, sep: char)
    requires sep !in s
    ensures Split(s, sep) == [s]
  {
    if s != [] {
      SplitNoSep(s[1..], sep);
      assert [s[0]] + s[1..] == s;
    }
  }

  /** A separator-free head becomes the first piece. */
  lemma {:induction false} SplitPrefix(a: string, sep: char, b: string)
    requires sep !in a
    ensures Split(a + [sep] + b, sep) == [a] + Split(b, sep)
  {
    if a != [] {
      assert (a + [sep] + b)[1..] == a[1..] + [sep] + b;
      SplitPrefix(a[1..], sep, b);
      assert [a[0]] + a[1..] == a;
    } else {
      assert (a + [sep] + b)[1..] == b;
    }
  }

  /** Joining two non-empty lists puts one separator between their joins. */
  lemma {:induction false} JoinAppend(a: seq<string>, b: seq<string>, sep: char)
    requires a != [] && b != []
    ensures Join(a + b, sep) == Join(a, sep) + [sep] + Join(b, sep)
  {
    if |a| > 1 {
      assert (a + b)[1..] == a[1..] + b;
      JoinAppend(a[1..], b, sep);
    } else {
      assert (a + b)[1..] == b;
    }
  }

  /** A join starts with the first character of its first piece. */
  lemma JoinFirstChar(parts: seq<string>, sep: char)
    requires parts != [] && parts[0] != []
    ensures Join(parts, sep) != [] && Join(parts, sep)[0] == parts[0][0]
  {
  }

  /** A join ends with the last character of its last piece. */
  lemma {:induction false} JoinLastChar(parts: seq<string>, sep: char)
    requires parts != [] && parts[|parts| - 1] != []
    ensures var j, p := Join(parts, sep), parts[|parts| - 1];
      j != [] && j[|j| - 1] == p[|p| - 1]
  {
    if |parts| > 1 {
      JoinLastChar(parts[1..], sep);
    }
  }

  /** A join with a separator that the pattern lacks contains the pattern
      only if one of the pieces does. */
  lemma {:induction false} JoinNotContains(parts: seq<string>, sep: char, pat: string)
    requires sep !in pat && pat != []
    requires forall i :: 0 <= i < |parts| ==> !Contains(parts[i], pat)
    ensures !Contains(Join(parts, sep), pat)
  {
    if |parts| > 1 {
      JoinNotContains(parts[1..], sep, pat);
      NotContainsAcross(parts[0], sep, Join(parts[1..], sep), pat);
    }
  }

  /** A split has one piece more than there are separators. */
  lemma {:induction false} SplitCount(s: string, sep: char)
    ensures |Split(s, sep)| == multiset(s)[sep] + 1
  {
    if s != [] {
      SplitCount(s[1..], sep);
      assert s == [s[0]] + s[1..];
      assert multiset(s) == multiset([s[0]]) + multiset(s[1..]);
    }
  }

  // ---------------------------------------------------------------------
  // List comprehension

  /** `[f(x) for x in xs if keep(x)]` */
  function ListComp<T, U>(xs: seq<T>, f: T -> U, keep: T -> bool): (r: seq<U>)
    ensures |r| <= |xs|
  {
    if xs == [] then []
    else (if keep(xs[0]) then [f(xs[0])] else []) + ListComp(xs[1..], f, keep)
  }

  /** A property that `f` gives every kept element holds of the whole result. */
  lemma {:induction false} ListCompKeeps<T, U>(xs: seq<T>, f: T -> U, keep: T -> bool, q: U -> bool)
    requires forall i :: 0 <= i < |xs| && keep(xs[i]) ==> q(f(xs[i]))
    ensures forall i :: 0 <= i < |ListComp(xs, f, keep)| ==> q(ListComp(xs, f, keep)[i])
  {
    if xs != [] {
      forall i | 0 <= i < |xs[1..]| && keep(xs[1..][i]) ensures q(f(xs[1..][i])) {
        assert xs[1..][i] == xs[i + 1];
      }
      ListCompKeeps(xs[1..], f, keep, q);
    }
  }

  /** The comprehension of a concatenation is the concatenation of the
      comprehensions: elements are taken one by one, in order. */
  lemma {:induction false} ListCompAppend<T, U>(a: seq<T>, b: seq<T>, f: T -> U, keep: T -> bool)
    ensures ListComp(a + b, f, keep) == ListComp(a, f, keep) + ListComp(b, f, keep)
  {
    if a != [] {
      assert (a + b)[0] == a[0];
      assert (a + b)[1..] == a[1..] + b;
      ListCompAppend(a[1..], b, f, keep);
    } else {
      assert a + b == b;
    }
  }

  /** A value is in the result exactly when it is `f` of a kept element. */
  lemma {:induction false} ListCompMembership<T, U>(xs: seq<T>, f: T -> U, keep: T -> bool, y: U)
    ensures y in ListComp(xs, f, keep) <==> exists i :: 0 <= i < |xs| && keep(xs[i]) && f(xs[i]) == y
  {
    if xs != [] {
      ListCompMembership(xs[1..], f, keep, y);
      if y in ListComp(xs[1..], f, keep) {
        var i :| 0 <= i < |xs[1..]| && keep(xs[1..][i]) && f(xs[1..][i]) == y;
        assert xs[i + 1] == xs[1..][i];
      }
      if i :| 0 <= i < |xs| && keep(xs[i]) && f(xs[i]) == y {
        if i > 0 {
          assert xs[1..][i - 1] == xs[i];
        }
      }
    }
  }

  /** When every element is kept, the result is `f` of each element. */
  lemma {:induction false} ListCompAllKept<T, U>(xs: seq<T>, f: T -> U, keep: T -> bool, ys: seq<U>)
    requires |ys| == |xs|
    requires forall i :: 0 <= i < |xs| ==> keep(xs[i]) && f(xs[i]) == ys[i]
    ensures ListComp(xs, f, keep) == ys
  {
    if xs != [] {
      forall i | 0 <= i < |xs[1..]| ensures keep(xs[1..][i]) && f(xs[1..][i]) == ys[1..][i] {
        assert xs[1..][i] == xs[i + 1];
      }
      ListCompAllKept(xs[1..], f, keep, ys[1..]);
      assert ys == [ys[0]] + ys[1..];
    }
  }

  /** An element that is not kept contributes nothing. */
  lemma ListCompSkips<T, U>(xs: seq<T>, f: T -> U, keep: T -> bool, i: int)
    requires 0 <= i < |xs| && !keep(xs[i])
    ensures ListComp(xs, f, keep) == ListComp(xs[..i], f, keep) + ListComp(xs[i + 1..], f, keep)
  {
    var rest := xs[i..];
    assert xs == xs[..i] + rest;
    ListCompAppend(xs[..i], rest, f, keep);
    assert ListComp(rest, f, keep) == ListComp(xs[i + 1..], f, keep) by {
      assert rest[0] == xs[i] && rest[1..] == xs[i + 1..];
    }
  }
}
