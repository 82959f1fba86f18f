/** The ranking step of `get_top_species`: the pairs (largest mole fraction,
    species name) sorted with `reverse=True`, then only the names kept. */
module Ranking {
  import Text
  import Lists
  import opened ReactorStates

  /** One `(X_max, name)` tuple. */
  type Entry = (real, string)

  /** Python's `<` on such tuples: by value, then by name. */
  predicate Below(a: Entry, b: Entry) {
    a.0 < b.0 || (a.0 == b.0 && Text.Less(a.1, b.1))
  }

  lemma BelowIrreflexive(a: Entry)
    ensures !Below(a, a)
  {
    Text.LessIrreflexive(a.1);
  }

  lemma BelowTransitive(a: Entry, b: Entry, c: Entry)
    ensures Below(a, b) && Below(b, c) ==> Below(a, c)
  {
    if Below(a, b) && Below(b, c) && a.0 == b.0 && b.0 == c.0 {
      Text.LessTransitive(a.1, b.1, c.1);
    }
  }

  lemma BelowTotal(a: Entry, b: Entry)
    ensures a != b ==> Below(a, b) || Below(b, a)
  {
    if a != b && a.0 == b.0 {
      Text.LessTotal(a.1, b.1);
    }
  }

  /** Sorted with `reverse=True`: nothing comes before something above it. */
  predicate Descending(s: seq<Entry>) {
    forall i, j :: 0 <= i < j < |s| ==> !Below(s[i], s[j])
  }

  /** Insert `x` in front of the first entry below it. */
  function Insert(x: Entry, s: seq<Entry>): (r: seq<Entry>)
    ensures multiset(r) == multiset(s) + multiset{x}
  {
    if |s| == 0 then [x]
    else if Below(s[0], x) then [x] + s
    else
      assert s == [s[0]] + s[1..];
      [s[0]] + Insert(x, s[1..])
  }

  /** `sorted(entries, reverse=True)`, by insertion. */
  function SortDescending(s: seq<Entry>): (r: seq<Entry>)
    ensures multiset(r) == multiset(s)
  {
    if |s| == 0 then []
    else
      assert s == [s[0]] + s[1..];
      Insert(s[0], SortDescending(s[1..]))
  }

  lemma {:induction false} InsertDescending(x: Entry, s: seq<Entry>)
    requires Descending(s)
    ensures Descending(Insert(x, s))
  {
    if |s| > 0 {
      if Below(s[0], x) {
        forall j | 0 <= j < |s| ensures !Below(x, s[j]) {
          BelowIrreflexive(s[0]);
          BelowTransitive(s[0], x, s[j]);
        }
      } else {
        InsertDescending(x, s[1..]);
        var rest := Insert(x, s[1..]);
        forall j | 0 <= j < |rest| ensures !Below(s[0], rest[j]) {
          assert rest[j] in multiset(rest);
          assert rest[j] == x || rest[j] in s[1..];
        }
      }
    }
  }

  /** `sorted(..., reverse=True)` is ordered and a permutation of its input. */
  lemma {:induction false} SortIsDescending(s: seq<Entry>)
    ensures Descending(SortDescending(s))
    ensures multiset(SortDescending(s)) == multiset(s)
  {
    if |s| > 0 {
      SortIsDescending(s[1..]);
      InsertDescending(s[0], SortDescending(s[1..]));
    }
  }

  // ---------------------------------------------------------------------
  // species ranking

  /** A species' largest mole fraction over the history. */
  function PeakOf(s: States, name: string): real
    requires s.Valid() && name in s.speciesNames
  {
    PeakMoleFractions(s)[Lists.IndexOf(s.speciesNames, name)]
  }

  /** Species `a` is listed before species `b`: a larger peak mole fraction,
      or the same peak and a name that compares greater. */
  predicate Outranks(s: States, a: string, b: string)
    requires s.Valid()
  {
    a in s.speciesNames && b in s.speciesNames &&
    Below((PeakOf(s, b), b), (PeakOf(s, a), a))
  }

  function Entries(s: States): (z: seq<Entry>)
    requires s.Valid()
    ensures |z| == |s.speciesNames|
  {
    var peaks := PeakMoleFractions(s);
    seq(|s.speciesNames|, k requires 0 <= k < |s.speciesNames| => (peaks[k], s.speciesNames[k]))
  }

  /** `[t[1] for t in sorted(zip(X_max, species_names), reverse=True)]`. */
  function RankedNames(s: States): (r: seq<string>)
    requires s.Valid()
    ensures |r| == |s.speciesNames|
  {
    var p := SortDescending(Entries(s));
    assert |multiset(p)| == |Entries(s)|;
    Lists.Seconds(p)
  }

  lemma IndexOfDistinct(names: seq<string>, k: nat)
    requires Lists.NoDup(names) && k < |names|
    ensures Lists.IndexOf(names, names[k]) == k
  {
    var i := Lists.IndexOf(names, names[k]);
    assert names[i] == names[k];
  }

  /** Every zipped entry pairs a species with its own peak. */
  lemma EntryIsKeyed(s: States, e: Entry)
    requires s.Valid() && e in Entries(s)
    ensures e.1 in s.speciesNames && e == (PeakOf(s, e.1), e.1)
  {
    var k :| 0 <= k < |Entries(s)| && Entries(s)[k] == e;
    IndexOfDistinct(s.speciesNames, k);
  }

  /** The sorted entries: as many as species, none repeated, each the
      pair of a species and its own peak. */
  lemma SortedEntries(s: States)
    requires s.Valid()
    ensures |SortDescending(Entries(s))| == |s.speciesNames|
    ensures Descending(SortDescending(Entries(s)))
    ensures Lists.NoDup(SortDescending(Entries(s)))
    ensures forall e :: e in SortDescending(Entries(s)) <==> e in Entries(s)
    ensures forall e :: e in SortDescending(Entries(s)) ==>
              e.1 in s.speciesNames && e == (PeakOf(s, e.1), e.1)
  {
    var z := Entries(s);
    var p := SortDescending(z);
    SortIsDescending(z);
    assert |p| == |z| by {
      assert |multiset(p)| == |multiset(z)|;
    }
    assert Lists.NoDup(z) by {
      forall i, j | 0 <= i < j < |z| ensures z[i] != z[j] {
        assert z[i].1 == s.speciesNames[i] && z[j].1 == s.speciesNames[j];
      }
    }
    Lists.PermutationNoDup(z, p);
    forall e ensures e in p <==> e in z {
      assert e in p <==> e in multiset(p);
      assert e in z <==> e in multiset(z);
    }
    forall e | e in p ensures e.1 in s.speciesNames && e == (PeakOf(s, e.1), e.1) {
      EntryIsKeyed(s, e);
    }
  }

  /** The ranking lists exactly the species. */
  lemma RankedNamesMembers(s: States)
    requires s.Valid()
    ensures |RankedNames(s)| == |s.speciesNames|
    ensures forall x :: x in RankedNames(s) <==> x in s.speciesNames
  {
    var z := Entries(s);
    var p := SortDescending(z);
    var r := RankedNames(s);
    SortedEntries(s);
    forall x ensures x in r <==> x in s.speciesNames {
      if x in s.speciesNames {
        var k :| 0 <= k < |s.speciesNames| && s.speciesNames[k] == x;
        assert z[k] in p;
        var i :| 0 <= i < |p| && p[i] == z[k];
        assert r[i] == x;
      }
      if x in r {
        var i :| 0 <= i < |r| && r[i] == x;
        assert p[i] in p;
      }
    }
  }

  /** The ranking repeats no species and lists each before every species
      it outranks. */
  lemma RankedNamesOrdered(s: States)
    requires s.Valid()
    ensures Lists.NoDup(RankedNames(s))
    ensures forall i, j :: 0 <= i < j < |RankedNames(s)| ==>
              Outranks(s, RankedNames(s)[i], RankedNames(s)[j])
  {
    var p := SortDescending(Entries(s));
    var r := RankedNames(s);
    SortedEntries(s);
    forall i, j | 0 <= i < j < |r| ensures r[i] != r[j] && Outranks(s, r[i], r[j]) {
      assert p[i] in p && p[j] in p;
      assert p[i] != p[j];
      BelowTotal(p[i], p[j]);
    }
  }
}
