/**
  File names for saved documents: the character classes the names are
  cleaned with, the stem and suffix of a name as `pathlib` splits it, and the
  search for a free name when the wanted one is taken.
 */
module Naming {
  import opened Text

  /** `[\w\s-]`, the characters export and submission names keep; `isWord` is `\w`. */
  predicate NameChar(c: char, isWord: char -> bool) {
    isWord(c) || IsSpace(c) || c == '-'
  }

  /** `[\w-]`, the characters a surname keeps. */
  predicate SurnameChar(c: char, isWord: char -> bool) {
    isWord(c) || c == '-'
  }

  /** `re.sub(r"[^\w\s-]", "", s).strip()`. */
  function Cleaned(s: string, isWord: char -> bool): (r: string)
    ensures forall i :: 0 <= i < |r| ==> NameChar(r[i], isWord)
    ensures r == [] || (!IsSpace(r[0]) && !IsSpace(r[|r| - 1]))
  {
    var kept := Keep(s, c => NameChar(c, isWord));
    TrimmedNameChars(kept, Strip(kept), isWord);
    Strip(kept)
  }

  /** Trimming keeps a text's characters, so a text of name characters trims to one. */
  lemma TrimmedNameChars(s: string, r: string, isWord: char -> bool)
    requires Trims(s, r)
    requires forall j :: 0 <= j < |s| ==> NameChar(s[j], isWord)
    ensures forall j :: 0 <= j < |r| ==> NameChar(r[j], isWord)
  {
    var i :| 0 <= i <= |s| - |r| && OccursAt(s, r, i) && AllSpace(s[..i]) && AllSpace(s[i + |r|..]);
    forall j | 0 <= j < |r| ensures NameChar(r[j], isWord) {
      assert r[j] == s[i..i + |r|][j] == s[i + j];
    }
  }

  lemma KeepAll(s: string, isWord: char -> bool)
    requires forall i :: 0 <= i < |s| ==> NameChar(s[i], isWord)
    ensures Keep(s, c => NameChar(c, isWord)) == s
  {
  }

  /** The path of `name` inside the directory `dir`. */
  function In(dir: string, name: string): string {
    dir + "/" + name
  }

  // --------------------------------------------------------- stem and suffix

  /** `PurePath.suffix`: from the last dot, unless that dot starts or ends the name. */
  function Suffix(name: string): (r: string)
    ensures r == [] || (r[0] == '.' && |r| < |name| && r == name[|name| - |r|..])
  {
    var i := LastDot(name);
    if 0 < i < |name| - 1 then name[i..] else ""
  }

  /** `PurePath.stem`: the name without its suffix. */
  function Stem(name: string): (r: string)
    ensures r + Suffix(name) == name
  {
    name[..|name| - |Suffix(name)|]
  }

  function LastDot(s: string): (i: int)
    ensures -1 <= i < |s|
    ensures i == -1 <==> '.' !in s
    ensures 0 <= i ==> s[i] == '.' && '.' !in s[i + 1..]
  {
    if s == [] then -1
    else if s[|s| - 1] == '.' then |s| - 1
    else
      var i := LastDot(s[..|s| - 1]);
      assert s[i + 1..] == s[..|s| - 1][i + 1..] + [s[|s| - 1]];
      i
  }

  lemma ConcatNoDot(a: string, b: string)
    requires '.' !in a && '.' !in b
    ensures '.' !in a + b
  {
    var s := a + b;
    forall i | 0 <= i < |s| ensures s[i] != '.' {
      if i < |a| {
        assert s[i] == a[i];
      } else {
        assert s[i] == b[i - |a|];
      }
    }
  }

  /** A dot-free non-empty base followed by an extension splits back into the two. */
  lemma SplitExtension(base: string, ext: string)
    requires base != [] && '.' !in base
    requires |ext| >= 2 && ext[0] == '.' && '.' !in ext[1..]
    ensures Suffix(base + ext) == ext && Stem(base + ext) == base
  {
    var name := base + ext;
    assert name[|base|] == '.';
    assert name[|base| + 1..] == ext[1..];
    var i := LastDot(name);
    assert i == |base|;
  }

  // ------------------------------------------------------------- free names

  /** `f"{stem} ({i}){suffix}"`. */
  function Candidate(stem: string, i: nat, suffix: string): string {
    stem + " (" + NatToString(i) + ")" + suffix
  }

  lemma CandidateInjective(stem: string, suffix: string, a: nat, b: nat)
    requires Candidate(stem, a, suffix) == Candidate(stem, b, suffix)
    ensures a == b
  {
    var x, y := Candidate(stem, a, suffix), Candidate(stem, b, suffix);
    var sa, sb := NatToString(a), NatToString(b);
    assert |sa| == |sb|;
    var lo := |stem| + 2;
    assert x[lo..lo + |sa|] == sa;
    assert y[lo..lo + |sb|] == sb;
    NatToStringInjective(a, b);
  }

  /** The candidates numbered from 2 up to, not including, `j`. */
  function Candidates(stem: string, suffix: string, j: nat): set<string> {
    set k | 2 <= k < j :: Candidate(stem, k, suffix)
  }

  lemma {:induction false} CandidatesSize(stem: string, suffix: string, j: nat)
    requires j >= 2
    ensures |Candidates(stem, suffix, j)| == j - 2
    decreases j
  {
    if j > 2 {
      CandidatesSize(stem, suffix, j - 1);
      var c := Candidate(stem, j - 1, suffix);
      assert c !in Candidates(stem, suffix, j - 1) by {
        if c in Candidates(stem, suffix, j - 1) {
          var k :| 2 <= k < j - 1 && Candidate(stem, k, suffix) == c;
          CandidateInjective(stem, suffix, k, j - 1);
        }
      }
      CandidatesSnoc(stem, suffix, j);
    } else {
      assert Candidates(stem, suffix, j) == {};
    }
  }

  /** One more number adds its candidate. */
  lemma CandidatesSnoc(stem: string, suffix: string, j: nat)
    requires j > 2
    ensures Candidates(stem, suffix, j) == Candidates(stem, suffix, j - 1) + {Candidate(stem, j - 1, suffix)}
  {
  }

  /** Only as many candidates can be taken as there are taken names. */
  lemma TakenCandidatesBounded(stem: string, suffix: string, taken: set<string>, j: nat)
    requires j >= 2
    requires forall k :: 2 <= k < j ==> Candidate(stem, k, suffix) in taken
    ensures j - 2 <= |taken|
  {
    CandidatesSize(stem, suffix, j);
    assert Candidates(stem, suffix, j) <= taken;
    SubsetSize(Candidates(stem, suffix, j), taken);
  }

  lemma SubsetSize(a: set<string>, b: set<string>)
    requires a <= b
    ensures |a| <= |b|
  {
    assert b == a + (b - a);
  }

  /**
    `free` is the name a file wanted under `name` is saved under when `taken`
    holds the names already in the directory: `name` itself when that is
    free, otherwise `stem (i)suffix` for the least `i` from 2 that is free.
   */
  ghost predicate FreeFor(name: string, taken: set<string>, free: string) {
    && free !in taken
    && (name !in taken ==> free == name)
    && (name in taken ==>
          exists i :: 2 <= i && free == Candidate(Stem(name), i, Suffix(name))
                      && forall k :: 2 <= k < i ==> Candidate(Stem(name), k, Suffix(name)) in taken)
  }

  /** Only one name meets the rule: the least free number is unique. */
  lemma FreeForUnique(name: string, taken: set<string>, a: string, b: string)
    requires FreeFor(name, taken, a) && FreeFor(name, taken, b)
    ensures a == b
  {
    if name in taken {
      var stem, suffix := Stem(name), Suffix(name);
      var i :| 2 <= i && a == Candidate(stem, i, suffix)
               && forall k :: 2 <= k < i ==> Candidate(stem, k, suffix) in taken;
      var j :| 2 <= j && b == Candidate(stem, j, suffix)
               && forall k :: 2 <= k < j ==> Candidate(stem, k, suffix) in taken;
      LeastFreeUnique(stem, suffix, taken, i, j);
    }
  }

  /** Two numbers whose candidates are free while all smaller ones are taken are the same number. */
  lemma LeastFreeUnique(stem: string, suffix: string, taken: set<string>, i: nat, j: nat)
    requires Candidate(stem, i, suffix) !in taken && Candidate(stem, j, suffix) !in taken
    requires forall k :: 2 <= k < i ==> Candidate(stem, k, suffix) in taken
    requires forall k :: 2 <= k < j ==> Candidate(stem, k, suffix) in taken
    requires 2 <= i && 2 <= j
    ensures i == j
  {
    if i < j {
      assert false;
    } else if j < i {
      assert false;
    }
  }

  /** Saving under a free name keeps every file already there, unchanged. */
  lemma SaveNeverOverwrites(files: map<string, string>, wanted: string, name: string, data: string)
    requires FreeFor(wanted, files.Keys, name)
    ensures files.Keys < files[name := data].Keys
    ensures forall n :: n in files ==> files[name := data][n] == files[n]
  {
    assert name in files[name := data].Keys;
  }

  /** The search for a free name: tries `stem (2)suffix`, `stem (3)suffix`, … in turn. */
  method FreeName(name: string, taken: set<string>) returns (free: string)
    ensures FreeFor(name, taken, free)
  {
    free := name;
    if name in taken {
      var stem, suffix := Stem(name), Suffix(name);
      var i := 2;
      free := Candidate(stem, i, suffix);
      while free in taken
        invariant 2 <= i && i - 2 <= |taken|
        invariant free == Candidate(stem, i, suffix)
        invariant forall k :: 2 <= k < i ==> Candidate(stem, k, suffix) in taken
        decreases |taken| + 2 - i
      {
        TakenCandidatesBounded(stem, suffix, taken, i + 1);
        i := i + 1;
        free := Candidate(stem, i, suffix);
      }
    }
  }
}
