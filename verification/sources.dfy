/**
  A writing project and the edits to its source list: appending a source,
  removing sources by id, and importing sources from another project while
  skipping those already present.
 */
module Sources {
  import opened Opt
  import opened Text
  import opened Citation

  /** A project; `sources` holds the records in the order they were added. */
  datatype Project = Project(
    id: string,
    name: string,
    created: string,
    modified: string,
    content: string,
    sources: seq<Source>)

  // ----------------------------------------------------------- list edits

  /** `add_source`: the record goes to the end; nothing else changes. */
  function AddSource(p: Project, s: Source): (r: Project)
    ensures |r.sources| == |p.sources| + 1 && r.sources[|p.sources|] == s
    ensures r.sources[..|p.sources|] == p.sources
    ensures r.(sources := p.sources) == p
  {
    p.(sources := p.sources + [s])
  }

  /**
    The records of `ss` whose id differs from `id`, in their original order
    and as often as `ss` holds them (`WithoutIdCounts`, `WithoutIdSubsequence`).
   */
  function WithoutId(ss: seq<Source>, id: string): (r: seq<Source>)
    ensures |r| <= |ss|
    ensures forall x :: x in r <==> x in ss && x.id != id
  {
    if ss == [] then []
    else (if ss[0].id == id then [] else [ss[0]]) + WithoutId(ss[1..], id)
  }

  /** The filter keeps every other record as often as `ss` holds it. */
  lemma {:induction false} WithoutIdCounts(ss: seq<Source>, id: string)
    ensures forall x: Source :: x.id != id ==> multiset(WithoutId(ss, id))[x] == multiset(ss)[x]
    decreases |ss|
  {
    if ss != [] {
      var h := if ss[0].id == id then [] else [ss[0]];
      var rest := WithoutId(ss[1..], id);
      WithoutIdCounts(ss[1..], id);
      assert ss == [ss[0]] + ss[1..];
      assert multiset(WithoutId(ss, id)) == multiset(h) + multiset(rest);
      assert multiset(ss) == multiset([ss[0]]) + multiset(ss[1..]);
    }
  }

  /** The filter keeps the other records in their order. */
  lemma {:induction false} WithoutIdSubsequence(ss: seq<Source>, id: string)
    ensures IsSubsequence(WithoutId(ss, id), ss)
    decreases |ss|
  {
    if ss != [] {
      var rest := WithoutId(ss[1..], id);
      WithoutIdSubsequence(ss[1..], id);
      if ss[0].id != id {
        var r := [ss[0]] + rest;
        assert r == WithoutId(ss, id);
        assert r[0] == ss[0] && r[1..] == rest;
      } else {
        assert rest == WithoutId(ss, id);
      }
    }
  }

  /**
    The contract of `WithoutId` fixes its result: a subsequence of `ss`
    without the id that keeps every other record as often as `ss` holds it
    is `WithoutId(ss, id)`.
   */
  lemma WithoutIdDetermined(ss: seq<Source>, id: string, r: seq<Source>)
    requires IsSubsequence(r, ss) && forall x :: x in r ==> x.id != id
    requires forall x: Source :: x.id != id ==> multiset(r)[x] == multiset(ss)[x]
    ensures r == WithoutId(ss, id)
  {
    var w := WithoutId(ss, id);
    WithoutIdCounts(ss, id);
    WithoutIdSubsequence(ss, id);
    assert multiset(r) == multiset(w) by {
      forall x ensures multiset(r)[x] == multiset(w)[x] {
        if x.id == id {
          assert x !in r && x !in w;
        }
      }
    }
    FullSubsequencesAgree(w, r, ss);
  }

  /**
    `remove_source`: every record carrying the id goes, all others stay in
    order; an id nobody carries leaves the project as it was.
   */
  function RemoveSource(p: Project, id: string): (r: Project)
    ensures forall x :: x in r.sources <==> x in p.sources && x.id != id
    ensures forall x: Source :: x.id != id ==> multiset(r.sources)[x] == multiset(p.sources)[x]
    ensures IsSubsequence(r.sources, p.sources)
    ensures (forall x :: x in p.sources ==> x.id != id) ==> r == p
    ensures r.(sources := p.sources) == p
  {
    KeepsAllWithout(p.sources, id);
    WithoutIdCounts(p.sources, id);
    WithoutIdSubsequence(p.sources, id);
    p.(sources := WithoutId(p.sources, id))
  }

  lemma {:induction false} KeepsAllWithout(ss: seq<Source>, id: string)
    ensures (forall x :: x in ss ==> x.id != id) ==> WithoutId(ss, id) == ss
  {
    if ss != [] && forall x :: x in ss ==> x.id != id {
      KeepsAllWithout(ss[1..], id);
      assert ss == [ss[0]] + ss[1..];
    }
  }

  lemma {:induction false} WithoutIdAppend(a: seq<Source>, b: seq<Source>, id: string)
    ensures WithoutId(a + b, id) == WithoutId(a, id) + WithoutId(b, id)
  {
    if a == [] {
      assert a + b == b;
    } else {
      var x, t := a[0], a[1..];
      HeadTail(a, b);
      WithoutIdCons(x, t, id);
      WithoutIdCons(x, t + b, id);
      WithoutIdAppend(t, b, id);
      AppendAssoc(if x.id == id then [] else [x], WithoutId(t, id), WithoutId(b, id));
    }
  }

  /** The head is kept or dropped, then the rest is filtered. */
  lemma WithoutIdCons(x: Source, t: seq<Source>, id: string)
    ensures WithoutId([x] + t, id) == (if x.id == id then [] else [x]) + WithoutId(t, id)
  {
    assert ([x] + t)[0] == x && ([x] + t)[1..] == t;
  }

  /** Removing by the id of a record just added undoes the addition of that record. */
  lemma RemoveUndoesAdd(p: Project, s: Source)
    ensures RemoveSource(AddSource(p, s), s.id) == RemoveSource(p, s.id)
  {
    WithoutIdAppend(p.sources, [s], s.id);
  }

  /** Removing twice is removing once. */
  lemma {:induction false} RemoveIdempotent(p: Project, id: string)
    ensures RemoveSource(RemoveSource(p, id), id) == RemoveSource(p, id)
  {
    KeepsAllWithout(RemoveSource(p, id).sources, id);
  }

  // -------------------------------------------------------------- importing

  /** Two records count as the same source when author, title and year agree. */
  datatype Key = Key(author: string, title: string, year: string)

  function KeyOf(s: Source): Key {
    Key(s.author, s.title, s.year)
  }

  function Keys(ss: seq<Source>): (r: set<Key>)
    ensures forall s :: s in ss ==> KeyOf(s) in r
    ensures forall k :: k in r ==> exists i :: 0 <= i < |ss| && KeyOf(ss[i]) == k
  {
    set i | 0 <= i < |ss| :: KeyOf(ss[i])
  }

  /** The id given to the `n`-th imported record: a timestamp read then, `_`, and `n`. */
  function ImportId(stamp: nat -> string, n: nat): string {
    stamp(n) + "_" + NatToString(n)
  }

  /**
    Reference definition of the import: walk the offered records, skip one
    whose key is already known, otherwise give it the next id and learn its key.
   */
  function Imported(known: set<Key>, offered: seq<Source>, stamp: nat -> string, n: nat): (r: seq<Source>)
    ensures |r| <= |offered|
    decreases |offered|
  {
    if offered == [] then []
    else if KeyOf(offered[0]) in known then Imported(known, offered[1..], stamp, n)
    else [offered[0].(id := ImportId(stamp, n))]
         + Imported(known + {KeyOf(offered[0])}, offered[1..], stamp, n + 1)
  }

  /** One step of the import, seen from the records added so far. */
  lemma ImportedAppend(added: seq<Source>, known: set<Key>, offered: seq<Source>, stamp: nat -> string)
    requires offered != []
    ensures var n, s := |added|, offered[0];
            KeyOf(s) in known ==>
              added + Imported(known, offered[1..], stamp, n) == added + Imported(known, offered, stamp, n)
    ensures var n, s := |added|, offered[0];
            var t := s.(id := ImportId(stamp, n));
            KeyOf(s) !in known ==>
              (added + [t]) + Imported(known + {KeyOf(s)}, offered[1..], stamp, n + 1)
              == added + Imported(known, offered, stamp, n)
  {
    var n, s := |added|, offered[0];
    var t := s.(id := ImportId(stamp, n));
    var rest := Imported(known + {KeyOf(s)}, offered[1..], stamp, n + 1);
    assert (added + [t]) + rest == added + ([t] + rest);
  }

  /** `Imported {n} source(s).`, with the skipped count when there is one. */
  function ImportMessage(added: nat, skipped: nat): string {
    "Imported " + NatToString(added) + " source(s)."
    + (if skipped > 0 then " " + NatToString(skipped) + " duplicate(s) skipped." else "")
  }

  /**
    `_on_sources_imported`: nothing happens for an empty offer; otherwise the
    new records are appended with renamed ids and a summary message is given.
    `stamp(n)` is the clock reading taken when the `n`-th record is added.
   */
  method ImportSources(p: Project, offered: seq<Source>, stamp: nat -> string)
    returns (r: Project, message: Option<string>)
    ensures offered == [] ==> r == p && message == None
    ensures |p.sources| <= |r.sources| && r.sources[..|p.sources|] == p.sources
    ensures r.(sources := p.sources) == p
    ensures offered != [] ==>
              r.sources[|p.sources|..] == Imported(Keys(p.sources), offered, stamp, 0)
              && message == Some(ImportMessage(|r.sources| - |p.sources|, |offered| - (|r.sources| - |p.sources|)))
  {
    if offered == [] {
      return p, None;
    }
    var added := ImportLoop(Keys(p.sources), offered, stamp);
    r := p.(sources := p.sources + added);
    assert r.sources[|p.sources|..] == added;
    message := Some(ImportMessage(|added|, |offered| - |added|));
  }

  /** The loop of `_on_sources_imported`: the records it adds, in order, with their new ids. */
  method ImportLoop(known: set<Key>, offered: seq<Source>, stamp: nat -> string) returns (added: seq<Source>)
    ensures added == Imported(known, offered, stamp, 0)
  {
    var seen := known;
    added := [];
    var i := 0;
    while i < |offered|
      invariant 0 <= i <= |offered|
      invariant added + Imported(seen, offered[i..], stamp, |added|) == Imported(known, offered, stamp, 0)
    {
      var s := offered[i];
      ImportedAppend(added, seen, offered[i..], stamp);
      assert offered[i..][0] == s && offered[i..][1..] == offered[i + 1..];
      if KeyOf(s) !in seen {
        added := added + [s.(id := ImportId(stamp, |added|))];
        seen := seen + {KeyOf(s)};
      }
      i := i + 1;
    }
    assert offered[i..] == [];
  }

  /** Imported records carry unknown keys and consecutive fresh ids. */
  predicate FreshFrom(r: seq<Source>, known: set<Key>, stamp: nat -> string, n: nat) {
    forall j :: 0 <= j < |r| ==> KeyOf(r[j]) !in known && r[j].id == ImportId(stamp, n + j)
  }

  predicate DistinctKeys(r: seq<Source>) {
    forall j, k :: 0 <= j < k < |r| ==> KeyOf(r[j]) != KeyOf(r[k])
  }

  lemma {:induction false} ImportedFresh(known: set<Key>, offered: seq<Source>, stamp: nat -> string, n: nat)
    ensures FreshFrom(Imported(known, offered, stamp, n), known, stamp, n)
    decreases |offered|
  {
    if offered != [] {
      var s := offered[0];
      if KeyOf(s) in known {
        ImportedFresh(known, offered[1..], stamp, n);
        assert Imported(known, offered, stamp, n) == Imported(known, offered[1..], stamp, n);
      } else {
        ImportedFresh(known + {KeyOf(s)}, offered[1..], stamp, n + 1);
        var rest := Imported(known + {KeyOf(s)}, offered[1..], stamp, n + 1);
        var r := [s.(id := ImportId(stamp, n))] + rest;
        assert Imported(known, offered, stamp, n) == r;
        forall j | 0 < j < |r|
          ensures KeyOf(r[j]) !in known && r[j].id == ImportId(stamp, n + j)
        {
          assert r[j] == rest[j - 1];
        }
      }
    }
  }

  /** No key is imported twice. */
  lemma {:induction false} ImportedDistinct(known: set<Key>, offered: seq<Source>, stamp: nat -> string, n: nat)
    ensures DistinctKeys(Imported(known, offered, stamp, n))
    decreases |offered|
  {
    if offered != [] {
      var s := offered[0];
      if KeyOf(s) in known {
        ImportedDistinct(known, offered[1..], stamp, n);
        assert Imported(known, offered, stamp, n) == Imported(known, offered[1..], stamp, n);
      } else {
        ImportedDistinct(known + {KeyOf(s)}, offered[1..], stamp, n + 1);
        ImportedFresh(known + {KeyOf(s)}, offered[1..], stamp, n + 1);
        var rest := Imported(known + {KeyOf(s)}, offered[1..], stamp, n + 1);
        var t := s.(id := ImportId(stamp, n));
        assert Imported(known, offered, stamp, n) == [t] + rest;
        assert forall j :: 0 <= j < |rest| ==> KeyOf(rest[j]) != KeyOf(t) by {
          assert KeyOf(t) == KeyOf(s);
        }
        DistinctCons(t, rest);
      }
    }
  }

  lemma DistinctCons(t: Source, rest: seq<Source>)
    requires DistinctKeys(rest)
    requires forall j :: 0 <= j < |rest| ==> KeyOf(rest[j]) != KeyOf(t)
    ensures DistinctKeys([t] + rest)
  {
    var r := [t] + rest;
    forall j, k | 0 <= j < k < |r|
      ensures KeyOf(r[j]) != KeyOf(r[k])
    {
      assert r[k] == rest[k - 1];
      if j > 0 {
        assert r[j] == rest[j - 1];
      }
    }
  }

  /** Every offered record ends up known: it was already, or its key was imported. */
  lemma {:induction false} ImportedCovers(known: set<Key>, offered: seq<Source>, stamp: nat -> string, n: nat)
    ensures forall s :: s in offered ==> KeyOf(s) in known + Keys(Imported(known, offered, stamp, n))
    decreases |offered|
  {
    if offered != [] {
      var s := offered[0];
      var known' := if KeyOf(s) in known then known else known + {KeyOf(s)};
      var n' := if KeyOf(s) in known then n else n + 1;
      ImportedCovers(known', offered[1..], stamp, n');
      var rest := Imported(known', offered[1..], stamp, n');
      var r := Imported(known, offered, stamp, n);
      assert Keys(rest) <= Keys(r) by {
        if KeyOf(s) !in known {
          forall k | k in Keys(rest) ensures k in Keys(r) {
            var i :| 0 <= i < |rest| && KeyOf(rest[i]) == k;
            assert r[i + 1] == rest[i];
          }
        }
      }
      assert KeyOf(s) in known + Keys(r) by {
        if KeyOf(s) !in known {
          assert KeyOf(r[0]) == KeyOf(s);
        }
      }
      forall t | t in offered[1..] ensures KeyOf(t) in known + Keys(r) {
      }
      assert offered == [s] + offered[1..];
    }
  }

  /** Offering the same records again right after an import adds nothing. */
  lemma ReimportAddsNothing(known: set<Key>, offered: seq<Source>, stamp: nat -> string, later: nat -> string)
    ensures var added := Imported(known, offered, stamp, 0);
            Imported(known + Keys(added), offered, later, 0) == []
  {
    ImportedCovers(known, offered, stamp, 0);
    AllKnownAddsNothing(known + Keys(Imported(known, offered, stamp, 0)), offered, later, 0);
  }

  lemma {:induction false} AllKnownAddsNothing(known: set<Key>, offered: seq<Source>, stamp: nat -> string, n: nat)
    requires forall s :: s in offered ==> KeyOf(s) in known
    ensures Imported(known, offered, stamp, n) == []
    decreases |offered|
  {
    if offered != [] {
      assert offered[0] in offered;
      assert forall s :: s in offered[1..] ==> s in offered;
      AllKnownAddsNothing(known, offered[1..], stamp, n);
    }
  }

  /**
    Imported ids are pairwise distinct as long as the timestamps have one fixed
    width, as `%Y%m%d_%H%M%S_%f` readings do.
   */
  lemma ImportIdsDistinct(stamp: nat -> string, width: nat, m: nat, n: nat)
    requires forall k :: |stamp(k)| == width
    requires ImportId(stamp, m) == ImportId(stamp, n)
    ensures m == n
  {
    var a, b := ImportId(stamp, m), ImportId(stamp, n);
    assert a[width + 1..] == NatToString(m);
    assert b[width + 1..] == NatToString(n);
    NatToStringInjective(m, n);
  }
}
