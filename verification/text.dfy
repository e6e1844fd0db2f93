/** The optional value used wherever the source returns `None` or an empty match. */
module Opt {
  datatype Option<T> = None | Some(value: T)
}

/**
  The slice of Python's `str` behaviour the application relies on: whitespace
  stripping and splitting, single-character splitting and joining, substring
  tests, left-to-right `str.replace`, decimal rendering of counters and
  code-point ordering of names.
 */
module Text {

  /**
    The characters Python's `str.isspace` accepts, which are also the ones `\s`
    and `str.split()` treat as whitespace: tab to carriage return, the four
    information separators, space, NEXT LINE, NO-BREAK SPACE, OGHAM SPACE MARK,
    EN QUAD to HAIR SPACE, the line and paragraph separators, NARROW NO-BREAK
    SPACE, MEDIUM MATHEMATICAL SPACE and IDEOGRAPHIC SPACE.
   */
  predicate IsSpace(c: char) {
    || '\t' <= c <= '\r'
    || '\U{1c}' <= c <= ' '
    || c == '\U{85}' || c == '\U{a0}' || c == '\U{1680}'
    || '\U{2000}' <= c <= '\U{200a}'
    || c == '\U{2028}' || c == '\U{2029}' || c == '\U{202f}' || c == '\U{205f}' || c == '\U{3000}'
  }

  predicate AllSpace(s: string) {
    forall i :: 0 <= i < |s| ==> IsSpace(s[i])
  }

  predicate NoSpace(s: string) {
    forall i :: 0 <= i < |s| ==> !IsSpace(s[i])
  }

  predicate StartsWith(s: string, prefix: string) {
    |prefix| <= |s| && s[..|prefix|] == prefix
  }

  predicate EndsWith(s: string, suffix: string) {
    |suffix| <= |s| && s[|s| - |suffix|..] == suffix
  }

  /** A concatenation starts with its first part and ends with its last. */
  lemma Appended(x: string, z: string)
    ensures StartsWith(x + z, x) && EndsWith(x + z, z)
  {
    assert (x + z)[..|x|] == x;
    assert (x + z)[|x|..] == z;
  }

  /** A string framed by `x` and `z` starts with `x` and ends with `z`. */
  lemma Framed(x: string, y: string, z: string)
    ensures StartsWith(x + y + z, x) && EndsWith(x + y + z, z)
  {
    assert (x + y + z)[..|x|] == x;
    assert (x + y + z)[|x + y|..] == z;
  }

  /** A suffix of the tail is a suffix of the whole. */
  lemma EndsWithAppend(x: string, y: string, z: string)
    requires EndsWith(y, z)
    ensures EndsWith(x + y, z)
  {
    assert (x + y)[|x + y| - |z|..] == y[|y| - |z|..];
  }

  /** `needle` occurs in `s` starting at index `i`. */
  predicate OccursAt(s: string, needle: string, i: int) {
    0 <= i <= |s| - |needle| && s[i..i + |needle|] == needle
  }

  /** Python's `needle in s` for strings. */
  predicate Contains(s: string, needle: string) {
    exists i :: 0 <= i <= |s| - |needle| && OccursAt(s, needle, i)
  }

  lemma OccursContains(s: string, needle: string, i: int)
    requires OccursAt(s, needle, i)
    ensures Contains(s, needle)
  {
  }

  // ---------------------------------------------------------------- stripping

  /** `s.lstrip()`: the suffix of `s` left after dropping leading whitespace. */
  function LStrip(s: string): (r: string)
    ensures |r| <= |s| && r == s[|s| - |r|..]
    ensures AllSpace(s[..|s| - |r|])
    ensures r == [] || !IsSpace(r[0])
    decreases |s|
  {
    if s != [] && IsSpace(s[0]) then
      var r := LStrip(s[1..]);
      assert forall i :: 1 <= i < |s| - |r| ==> s[i] == s[1..][..|s| - 1 - |r|][i - 1];
      r
    else s
  }

  /** `s.rstrip()`: the prefix of `s` left after dropping trailing whitespace. */
  function RStrip(s: string): (r: string)
    ensures |r| <= |s| && r == s[..|r|]
    ensures AllSpace(s[|r|..])
    ensures r == [] || !IsSpace(r[|r| - 1])
    decreases |s|
  {
    if s != [] && IsSpace(s[|s| - 1]) then
      var r := RStrip(s[..|s| - 1]);
      assert s[|r|..] == s[..|s| - 1][|r|..] + [s[|s| - 1]];
      r
    else s
  }

  /** `r` is `s` with a whitespace prefix and a whitespace suffix removed. */
  predicate Trims(s: string, r: string) {
    exists i :: 0 <= i <= |s| - |r| && OccursAt(s, r, i) && AllSpace(s[..i]) && AllSpace(s[i + |r|..])
  }

  /** `s.strip()`. */
  function Strip(s: string): (r: string)
    ensures r == [] || (!IsSpace(r[0]) && !IsSpace(r[|r| - 1]))
    ensures Trims(s, r)
  {
    var l := LStrip(s);
    var r := RStrip(l);
    TrimsOfStrips(s, l, r);
    r
  }

  lemma TrimsOfStrips(s: string, l: string, r: string)
    requires |l| <= |s| && l == s[|s| - |l|..] && AllSpace(s[..|s| - |l|])
    requires |r| <= |l| && r == l[..|r|] && AllSpace(l[|r|..])
    ensures Trims(s, r)
  {
    var i := |s| - |l|;
    assert s[i..i + |r|] == r;
    assert s[i + |r|..] == l[|r|..];
    assert OccursAt(s, r, i);
  }

  /** Text without whitespace at either end is its own strip. */
  lemma StripUnchanged(p: string)
    requires p != [] && !IsSpace(p[0]) && !IsSpace(p[|p| - 1])
    ensures Strip(p) == p
  {
  }

  /** `s.rstrip(c)` for one character `c`. */
  function RStripChar(s: string, c: char): (r: string)
    ensures |r| <= |s| && r == s[..|r|]
    ensures forall i :: |r| <= i < |s| ==> s[i] == c
    ensures r == [] || r[|r| - 1] != c
    decreases |s|
  {
    if s != [] && s[|s| - 1] == c then RStripChar(s[..|s| - 1], c) else s
  }

  /** Trailing `c`s are stripped from the tail only when the tail holds another character. */
  lemma {:induction false} RStripCharAppend(x: string, y: string, c: char)
    requires y != [] && y[0] != c
    ensures RStripChar(x + y, c) == x + RStripChar(y, c)
    decreases |y|
  {
    if y[|y| - 1] == c {
      assert |y| > 1;
      assert (x + y)[..|x + y| - 1] == x + y[..|y| - 1];
      RStripCharAppend(x, y[..|y| - 1], c);
    }
  }

  /** Python's slice `s[:n]`. */
  function Take(s: string, n: nat): (r: string)
    ensures |r| <= n && |r| <= |s|
    ensures r == s[..|r|]
    ensures |s| <= n ==> r == s
  {
    if |s| <= n then s else s[..n]
  }

  /** `re.sub(r"[^...]", "", s)`: keep exactly the characters the class admits. */
  function Keep(s: string, admit: char -> bool): (r: string)
    ensures |r| <= |s|
    ensures forall i :: 0 <= i < |r| ==> admit(r[i])
    ensures (forall i :: 0 <= i < |s| ==> admit(s[i])) ==> r == s
  {
    if s == [] then []
    else (if admit(s[0]) then [s[0]] else []) + Keep(s[1..], admit)
  }

  /** `s.replace(a, b)` for single characters. */
  function MapChar(s: string, a: char, b: char): (r: string)
    ensures |r| == |s|
    ensures forall i :: 0 <= i < |s| ==> r[i] == (if s[i] == a then b else s[i])
  {
    seq(|s|, i requires 0 <= i < |s| => if s[i] == a then b else s[i])
  }

  // --------------------------------------------------------- single-char split

  /** `s.find(c)`: the first index of `c`, or -1. */
  function IndexOf(s: string, c: char): (i: int)
    ensures -1 <= i < |s|
    ensures i == -1 <==> c !in s
    ensures 0 <= i ==> s[i] == c && c !in s[..i]
  {
    if s == [] then -1
    else if s[0] == c then 0
    else
      var j := IndexOf(s[1..], c);
      if j == -1 then -1 else j + 1
  }

  /** The first occurrence is the one with no earlier occurrence. */
  lemma IndexOfUnique(s: string, c: char, i: nat)
    requires i < |s| && s[i] == c && c !in s[..i]
    ensures IndexOf(s, c) == i
  {
  }

  /** `s.split(sep)` for a one-character separator: never empty, pieces free of `sep`. */
  function Split(s: string, sep: char): (parts: seq<string>)
    ensures |parts| >= 1
    ensures forall k :: 0 <= k < |parts| ==> sep !in parts[k]
    decreases |s|
  {
    var i := IndexOf(s, sep);
    if i < 0 then [s] else [s[..i]] + Split(s[i + 1..], sep)
  }

  /** `sep.join(parts)`. */
  function Join(parts: seq<string>, sep: char): string
    requires |parts| >= 1
  {
    if |parts| == 1 then parts[0] else parts[0] + [sep] + Join(parts[1..], sep)
  }

  /** Splitting undoes joining when no piece contains the separator. */
  lemma {:induction false} SplitJoin(parts: seq<string>, sep: char)
    requires |parts| >= 1
    requires forall k :: 0 <= k < |parts| ==> sep !in parts[k]
    ensures Split(Join(parts, sep), sep) == parts
  {
    if |parts| == 1 {
      assert IndexOf(parts[0], sep) == -1;
    } else {
      var s := Join(parts, sep);
      var tail := Join(parts[1..], sep);
      var i := |parts[0]|;
      assert IndexOf(s, sep) == i && s[..i] == parts[0] && s[i + 1..] == tail by {
        assert s == parts[0] + [sep] + tail;
        assert s[i] == sep;
        assert s[..i] == parts[0];
      }
      SplitJoin(parts[1..], sep);
      assert Split(s, sep) == [parts[0]] + parts[1..];
    }
  }

  lemma JoinCons(a: string, rest: seq<string>, sep: char)
    requires |rest| >= 1
    ensures Join([a] + rest, sep) == a + [sep] + Join(rest, sep)
  {
    assert ([a] + rest)[1..] == rest;
  }

  /** Joining undoes splitting. */
  lemma {:induction false} JoinSplit(s: string, sep: char)
    ensures Join(Split(s, sep), sep) == s
    decreases |s|
  {
    var i := IndexOf(s, sep);
    if i >= 0 {
      var rest := Split(s[i + 1..], sep);
      SplitStep(s, sep, i);
      JoinSplit(s[i + 1..], sep);
      JoinCons(s[..i], rest, sep);
      assert s == s[..i] + [sep] + s[i + 1..];
    }
  }

  /** Splitting at a separator that sits between two pieces splits each side. */
  lemma SplitAppend(a: string, b: string, sep: char)
    requires sep !in a
    ensures Split(a + [sep] + b, sep) == [a] + Split(b, sep)
  {
    var s := a + [sep] + b;
    assert s[|a|] == sep;
    assert s[..|a|] == a;
    assert IndexOf(s, sep) == |a|;
    assert s[|a| + 1..] == b;
  }

  /** A character other than the separator occurs in a join only if it occurs in a part. */
  lemma {:induction false} JoinExcludes(parts: seq<string>, sep: char, c: char)
    requires |parts| >= 1 && c != sep
    requires forall k :: 0 <= k < |parts| ==> c !in parts[k]
    ensures c !in Join(parts, sep)
    decreases |parts|
  {
    if |parts| > 1 {
      JoinExcludes(parts[1..], sep, c);
    }
  }

  /** A join ends with its last part. */
  lemma {:induction false} JoinEndsWithLast(parts: seq<string>, sep: char)
    requires |parts| >= 1
    ensures EndsWith(Join(parts, sep), parts[|parts| - 1])
    decreases |parts|
  {
    if |parts| > 1 {
      JoinEndsWithLast(parts[1..], sep);
      EndsWithAppend(parts[0] + [sep], Join(parts[1..], sep), parts[|parts| - 1]);
    } else {
      assert parts[0][|parts[0]| - |parts[0]|..] == parts[0];
    }
  }

  /** One step of a split: the piece before the first separator, then the split of the rest. */
  lemma SplitStep(s: string, sep: char, i: nat)
    requires IndexOf(s, sep) == i
    ensures Split(s, sep) == [s[..i]] + Split(s[i + 1..], sep)
  {
  }

  /** Splitting at a separator splits each side independently. */
  lemma {:induction false} SplitConcat(a: string, b: string, sep: char)
    ensures Split(a + [sep] + b, sep) == Split(a, sep) + Split(b, sep)
    decreases |a|
  {
    var i := IndexOf(a, sep);
    if i < 0 {
      SplitAppend(a, b, sep);
    } else {
      var t := a[i + 1..];
      SplitConcatStep(a, b, sep, i);
      SplitStep(a, sep, i);
      SplitConcat(t, b, sep);
      ConsAssoc(a[..i], Split(t, sep), Split(b, sep));
    }
  }

  /** Prepending one element regroups. */
  lemma ConsAssoc<T>(x: T, p: seq<T>, q: seq<T>)
    ensures [x] + (p + q) == ([x] + p) + q
  {
  }

  /** Concatenation regroups. */
  lemma AppendAssoc<T>(h: seq<T>, p: seq<T>, q: seq<T>)
    ensures h + (p + q) == (h + p) + q
  {
  }

  /** A non-empty sequence is its head before its tail, also in front of `b`. */
  lemma HeadTail<T>(a: seq<T>, b: seq<T>)
    requires a != []
    ensures a == [a[0]] + a[1..] && a + b == [a[0]] + (a[1..] + b)
  {
  }

  /** The first separator of `a` is the first of `a + [sep] + b`. */
  lemma SplitConcatStep(a: string, b: string, sep: char, i: nat)
    requires IndexOf(a, sep) == i
    ensures Split(a + [sep] + b, sep) == [a[..i]] + Split(a[i + 1..] + [sep] + b, sep)
  {
      var x := a + [sep] + b;
      var t := a[i + 1..];
      assert x[..i] == a[..i] && x[i] == sep;
      IndexOfUnique(x, sep, i);
      assert x[i + 1..] == t + [sep] + b;
      SplitStep(x, sep, i);
  }

  // ------------------------------------------------------- whitespace words

  /** A word of `str.split()`: non-empty and free of whitespace. */
  predicate IsWord(w: string) {
    w != [] && NoSpace(w)
  }

  /** Start of the run of non-whitespace characters that ends `r`. */
  function TrailingRunStart(r: string): (k: nat)
    ensures k <= |r|
    ensures NoSpace(r[k..])
    ensures k == 0 || IsSpace(r[k - 1])
    decreases |r|
  {
    if r == [] || IsSpace(r[|r| - 1]) then |r|
    else
      var k := TrailingRunStart(r[..|r| - 1]);
      assert r[k..] == r[..|r| - 1][k..] + [r[|r| - 1]];
      k
  }

  /**
    `s.split()[-1]`, which Python only allows when `s` holds a non-blank
    character: the last maximal run of non-whitespace characters.
   */
  function LastWord(s: string): (w: string)
    requires !AllSpace(s)
    ensures IsWord(w)
  {
    var r := RStrip(s);
    assert r != [] by { assert s[..|s|] == s; }
    r[TrailingRunStart(r)..]
  }

  /**
    The last word is a slice `s[i..j]` that starts the string or follows
    whitespace, with only whitespace after it.
   */
  lemma LastWordSpan(s: string) returns (i: nat, j: nat)
    requires !AllSpace(s)
    ensures i < j <= |s| && s[i..j] == LastWord(s)
    ensures i == 0 || IsSpace(s[i - 1])
    ensures AllSpace(s[j..])
  {
    var r := RStrip(s);
    i, j := TrailingRunStart(r), |r|;
    assert s[i..j] == r[i..];
    if i > 0 {
      assert s[i - 1] == r[i - 1];
    }
  }

  // ------------------------------------------------------------- replacement

  /** `s.replace(p, r)`: left to right, non-overlapping, no rescanning of `r`. */
  function Replace(s: string, p: string, r: string): string
    requires p != []
    decreases |s|
  {
    if |s| < |p| then s
    else if s[..|p|] == p then r + Replace(s[|p|..], p, r)
    else [s[0]] + Replace(s[1..], p, r)
  }

  /** Text without the pattern is left as it is. */
  lemma {:induction false} ReplaceAbsent(s: string, p: string, r: string)
    requires p != [] && !Contains(s, p)
    ensures Replace(s, p, r) == s
    decreases |s|
  {
    if |s| >= |p| {
      assert !OccursAt(s, p, 0);
      assert !Contains(s[1..], p) by {
        if Contains(s[1..], p) {
          var k :| 0 <= k <= |s[1..]| - |p| && OccursAt(s[1..], p, k);
          assert s[k + 1..k + 1 + |p|] == s[1..][k..k + |p|];
          assert OccursAt(s, p, k + 1);
        }
      }
      ReplaceAbsent(s[1..], p, r);
    }
  }

  /** Replacing a pattern by itself changes nothing. */
  lemma {:induction false} ReplaceBySelf(s: string, p: string)
    requires p != []
    ensures Replace(s, p, p) == s
    decreases |s|
  {
    if |s| < |p| {
    } else if s[..|p|] == p {
      ReplaceBySelf(s[|p|..], p);
      assert s == p + s[|p|..];
    } else {
      ReplaceBySelf(s[1..], p);
      assert s == [s[0]] + s[1..];
    }
  }

  // ------------------------------------------------------------ decimal text

  predicate IsDigit(c: char) {
    '0' <= c <= '9'
  }

  function DigitChar(d: nat): (c: char)
    requires d < 10
    ensures IsDigit(c)
  {
    ['0', '1', '2', '3', '4', '5', '6', '7', '8', '9'][d]
  }

  function DigitValue(c: char): nat
    requires IsDigit(c)
  {
    (c as int - '0' as int) as nat
  }

  /** `str(n)` for a non-negative integer. */
  function NatToString(n: nat): (s: string)
    ensures s != []
    ensures forall i :: 0 <= i < |s| ==> IsDigit(s[i])
  {
    if n < 10 then [DigitChar(n)] else NatToString(n / 10) + [DigitChar(n % 10)]
  }

  /** `int(s)` for a string of decimal digits. */
  function ParseNat(s: string): nat
    requires forall i :: 0 <= i < |s| ==> IsDigit(s[i])
  {
    if s == [] then 0 else 10 * ParseNat(s[..|s| - 1]) + DigitValue(s[|s| - 1])
  }

  /** Reading back a rendered number gives the number. */
  lemma {:induction false} ParseNatToString(n: nat)
    ensures ParseNat(NatToString(n)) == n
  {
    var s := NatToString(n);
    if n < 10 {
      assert DigitValue(DigitChar(n)) == n;
    } else {
      ParseNatToString(n / 10);
      assert s[..|s| - 1] == NatToString(n / 10);
      assert DigitValue(DigitChar(n % 10)) == n % 10;
    }
  }

  /** Distinct numbers render as distinct strings. */
  lemma NatToStringInjective(m: nat, n: nat)
    requires NatToString(m) == NatToString(n)
    ensures m == n
  {
    ParseNatToString(m);
    ParseNatToString(n);
  }

  // ---------------------------------------------------------- name ordering

  /** Python's `a <= b` on strings: code-point lexicographic order. */
  predicate LexLe(a: string, b: string)
    decreases |a|
  {
    if a == [] then true
    else if b == [] then false
    else if a[0] != b[0] then a[0] < b[0]
    else LexLe(a[1..], b[1..])
  }

  lemma {:induction false} LexLeTotal(a: string, b: string)
    ensures LexLe(a, b) || LexLe(b, a)
    decreases |a|
  {
    if a != [] && b != [] && a[0] == b[0] {
      LexLeTotal(a[1..], b[1..]);
    }
  }

  lemma {:induction false} LexLeAntisymmetric(a: string, b: string)
    requires LexLe(a, b) && LexLe(b, a)
    ensures a == b
    decreases |a|
  {
    if a != [] && b != [] {
      LexLeAntisymmetric(a[1..], b[1..]);
      assert a == [a[0]] + a[1..] && b == [b[0]] + b[1..];
    }
  }

  lemma {:induction false} LexLeTransitive(a: string, b: string, c: string)
    requires LexLe(a, b) && LexLe(b, c)
    ensures LexLe(a, c)
    decreases |a|
  {
    if a != [] && b != [] && c != [] && a[0] == b[0] && b[0] == c[0] {
      LexLeTransitive(a[1..], b[1..], c[1..]);
    }
  }

  // ------------------------------------------------------------- subsequences

  /** `r` is `s` with some elements left out and the others in their order. */
  predicate IsSubsequence<T(==)>(r: seq<T>, s: seq<T>)
    decreases |s|
  {
    |r| == 0 || (|s| > 0 && ((r[0] == s[0] && IsSubsequence(r[1..], s[1..])) || IsSubsequence(r, s[1..])))
  }

  lemma {:induction false} SubsequenceRefl<T>(s: seq<T>)
    ensures IsSubsequence(s, s)
    decreases |s|
  {
    if |s| > 0 {
      SubsequenceRefl(s[1..]);
    }
  }

  /** Taking out one element leaves a subsequence. */
  lemma {:induction false} SubsequenceDrop<T>(s: seq<T>, k: nat)
    requires k < |s|
    ensures IsSubsequence(s[..k] + s[k + 1..], s)
    decreases k
  {
    var r := s[..k] + s[k + 1..];
    if k == 0 {
      assert r == s[1..];
      SubsequenceRefl(s[1..]);
    } else {
      SubsequenceDrop(s[1..], k - 1);
      assert r[0] == s[0];
      assert r[1..] == s[1..][..k - 1] + s[1..][k..];
    }
  }

  /** A subsequence holds no element more often than the whole. */
  lemma {:induction false} SubsequenceMultiset<T>(r: seq<T>, s: seq<T>)
    requires IsSubsequence(r, s)
    ensures multiset(r) <= multiset(s)
    decreases |s|
  {
    if |r| > 0 {
      assert s == [s[0]] + s[1..];
      if r[0] == s[0] && IsSubsequence(r[1..], s[1..]) {
        SubsequenceMultiset(r[1..], s[1..]);
        assert r == [r[0]] + r[1..];
      } else {
        SubsequenceMultiset(r, s[1..]);
      }
    }
  }

  /**
    Two subsequences of `s` with the same elements, each element taken as
    often as `s` holds it, are the same sequence: such a subsequence is
    fixed by which elements it keeps.
   */
  lemma {:induction false} FullSubsequencesAgree<T>(r1: seq<T>, r2: seq<T>, s: seq<T>)
    requires IsSubsequence(r1, s) && IsSubsequence(r2, s) && multiset(r1) == multiset(r2)
    requires forall x :: x in r1 ==> multiset(r1)[x] == multiset(s)[x]
    ensures r1 == r2
    decreases |s|
  {
    if |s| == 0 {
      assert |r1| == 0 && |r2| == 0;
    } else if s[0] in r1 {
      FullTakesHead(r1, s);
      FullTakesHead(r2, s);
      SameTails(r1, r2);
      FullTail(r1, s);
      FullSubsequencesAgree(r1[1..], r2[1..], s[1..]);
      assert r1 == [r1[0]] + r1[1..] && r2 == [r2[0]] + r2[1..];
    } else {
      SkipsAbsentHead(r1, s);
      SkipsAbsentHead(r2, s);
      FullWithoutHead(r1, s);
      FullSubsequencesAgree(r1, r2, s[1..]);
    }
  }

  lemma SameTails<T>(r1: seq<T>, r2: seq<T>)
    requires |r1| > 0 && |r2| > 0 && r1[0] == r2[0] && multiset(r1) == multiset(r2)
    ensures multiset(r1[1..]) == multiset(r2[1..])
  {
    assert r1 == [r1[0]] + r1[1..] && r2 == [r2[0]] + r2[1..];
    assert multiset(r1[1..]) == multiset(r1) - multiset{r1[0]};
    assert multiset(r2[1..]) == multiset(r2) - multiset{r2[0]};
  }

  /** Dropping the shared head keeps every element at full multiplicity. */
  lemma FullTail<T>(r: seq<T>, s: seq<T>)
    requires |r| > 0 && |s| > 0 && r[0] == s[0]
    requires forall x :: x in r ==> multiset(r)[x] == multiset(s)[x]
    ensures forall x :: x in r[1..] ==> multiset(r[1..])[x] == multiset(s[1..])[x]
  {
    assert r == [r[0]] + r[1..] && s == [s[0]] + s[1..];
    forall x | x in r[1..] ensures multiset(r[1..])[x] == multiset(s[1..])[x] {
      assert x in r;
    }
  }

  /** Without the head in `r`, the tail of `s` holds each element of `r` as often as `s`. */
  lemma FullWithoutHead<T>(r: seq<T>, s: seq<T>)
    requires |s| > 0 && s[0] !in r
    requires forall x :: x in r ==> multiset(r)[x] == multiset(s)[x]
    ensures forall x :: x in r ==> multiset(r)[x] == multiset(s[1..])[x]
  {
    assert s == [s[0]] + s[1..];
    forall x | x in r ensures multiset(r)[x] == multiset(s[1..])[x] {
      assert x != s[0];
    }
  }

  /** A subsequence holding the head as often as `s` does must start with it. */
  lemma FullTakesHead<T>(r: seq<T>, s: seq<T>)
    requires |s| > 0 && IsSubsequence(r, s) && s[0] in r
    requires multiset(r)[s[0]] == multiset(s)[s[0]]
    ensures |r| > 0 && r[0] == s[0] && IsSubsequence(r[1..], s[1..])
  {
    assert s == [s[0]] + s[1..];
    if !(r[0] == s[0] && IsSubsequence(r[1..], s[1..])) {
      SubsequenceMultiset(r, s[1..]);
      assert false;
    }
  }

  /** A subsequence without the head is a subsequence of the tail. */
  lemma SkipsAbsentHead<T>(r: seq<T>, s: seq<T>)
    requires |s| > 0 && IsSubsequence(r, s) && s[0] !in r
    ensures IsSubsequence(r, s[1..])
  {
    if |r| > 0 {
      assert r[0] != s[0];
    }
  }
}
