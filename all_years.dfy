/** The all-years tables of build_lad_mappers: starting from one vintage's
    full list, each older vintage in turn contributes the rows whose code
    (or, for the _names variants, whose name) is absent from the table built
    so far, tagged with that vintage's year code. Also the row_checks
    diagnostic that compares the code-keyed and name-keyed tables. */
module AllYears {
  import opened LadTypes

  /** A row of an all-years table: LADNM, LADCD and 'year code', together with
      the index label the row had in its vintage's table (its position). */
  datatype Entry = Entry(name: Name, code: Code, year: YearCode, row: nat)

  /** A vintage's code list together with its year code. */
  datatype Dated = Dated(year: YearCode, units: Vintage)

  function EntryKey(e: Entry, k: KeyKind): string
  {
    if k == ByCode then e.code else e.name
  }

  /** The set of keys, codes or names, that an all-years table holds. */
  function TableKeys(t: seq<Entry>, k: KeyKind): set<string>
  {
    set e | e in t :: EntryKey(e, k)
  }

  /** Row i of a vintage as an all-years entry tagged with the vintage's year code. */
  function AsEntry(d: Dated, i: nat): Entry
    requires i < |d.units|
  {
    Entry(d.units[i].name, d.units[i].code, d.year, i)
  }

  /** Entry e is row e.row of vintage d, tagged with d's year code. */
  predicate FromVintage(e: Entry, d: Dated)
  {
    e.row < |d.units| && e == AsEntry(d, e.row)
  }

  /** The starting table: every row of the root vintage, tagged with its year code. */
  function TagAll(d: Dated): (t: seq<Entry>)
    ensures |t| == |d.units|
    ensures forall i :: 0 <= i < |t| ==> t[i] == AsEntry(d, i)
  {
    seq(|d.units|, i requires 0 <= i < |d.units| => AsEntry(d, i))
  }

  /** The first n rows of d whose key is not in seen, tagged with d's year
      code, in file order. */
  function Absent(d: Dated, k: KeyKind, seen: set<string>, n: nat): seq<Entry>
    requires n <= |d.units|
  {
    if n == 0 then []
    else Absent(d, k, seen, n - 1) + (if KeyOf(d.units[n - 1], k) in seen then [] else [AsEntry(d, n - 1)])
  }

  /** One iteration of the loop: concat the rows of d whose key the table lacks. */
  function AddAbsent(t: seq<Entry>, d: Dated, k: KeyKind): (r: seq<Entry>)
    ensures |t| <= |r|
    ensures r[..|t|] == t
  {
    t + Absent(d, k, TableKeys(t, k), |d.units|)
  }

  /** The table after processing the older vintages in the given order. */
  function Accumulate(root: Dated, older: seq<Dated>, k: KeyKind): seq<Entry>
    decreases |older|
  {
    if older == [] then TagAll(root)
    else AddAbsent(Accumulate(root, older[..|older| - 1], k), older[|older| - 1], k)
  }

  /** The union of the keys of a list of vintages. */
  function KeysOfAll(older: seq<Dated>, k: KeyKind): set<string>
    decreases |older|
  {
    if older == [] then {} else KeysOfAll(older[..|older| - 1], k) + VintageKeys(older[|older| - 1].units, k)
  }

  /** The year codes of the root and of the older vintages are pairwise distinct. */
  predicate DistinctYears(root: Dated, older: seq<Dated>)
  {
    && (forall j :: 0 <= j < |older| ==> older[j].year != root.year)
    && (forall i, j :: 0 <= i < j < |older| ==> older[i].year != older[j].year)
  }

  /** The index labels of the rows of t tagged with year code y. */
  function RowsTagged(t: seq<Entry>, y: YearCode): set<nat>
  {
    set e | e in t && e.year == y :: e.row
  }

  /** row_checks: the symmetric difference of the index sets of the rows tagged y
      in the code-keyed and in the name-keyed table. */
  function RowChecks(codeTable: seq<Entry>, nameTable: seq<Entry>, y: YearCode): (r: set<nat>)
    ensures forall i :: i in r <==> (i in RowsTagged(codeTable, y) <==> i !in RowsTagged(nameTable, y))
  {
    var byCode := RowsTagged(codeTable, y);
    var byName := RowsTagged(nameTable, y);
    (byCode - byName) + (byName - byCode)
  }

  /** The loop of build_lad_mappers that grows all_years_23 (or one of its
      three variants) one older vintage at a time. */
  method BuildAllYears(root: Dated, older: seq<Dated>, k: KeyKind) returns (table: seq<Entry>)
    ensures table == Accumulate(root, older, k)
    ensures TableKeys(table, k) == VintageKeys(root.units, k) + KeysOfAll(older, k)
    ensures KeyDeterminesYear(table, k)
  {
    table := TagAll(root);
    var i := 0;
    while i < |older|
      invariant 0 <= i <= |older|
      invariant table == Accumulate(root, older[..i], k)
    {
      var seen := TableKeys(table, k);
      var toAdd := Absent(older[i], k, seen, |older[i].units|);
      table := table + toAdd;
      assert older[..i + 1][..i] == older[..i];
      i := i + 1;
    }
    assert older[..|older|] == older;
    AccumulateKeys(root, older, k);
    SameKeySameYear(root, older, k);
  }

  // ---------------------------------------------------------------------------
  // Lemmas
  // ---------------------------------------------------------------------------

  lemma TableKeysAppend(a: seq<Entry>, b: seq<Entry>, k: KeyKind)
    ensures TableKeys(a + b, k) == TableKeys(a, k) + TableKeys(b, k)
  {
    assert forall e :: e in a + b <==> e in a || e in b;
  }

  lemma RowsTaggedAppend(a: seq<Entry>, b: seq<Entry>, y: YearCode)
    ensures RowsTagged(a + b, y) == RowsTagged(a, y) + RowsTagged(b, y)
  {
    assert forall e :: e in a + b <==> e in a || e in b;
  }

  /** The rows Absent selects are exactly the rows of the prefix whose key is unseen. */
  lemma {:induction false} AbsentMembers(d: Dated, k: KeyKind, seen: set<string>, n: nat)
    requires n <= |d.units|
    ensures forall e :: e in Absent(d, k, seen, n) <==>
              exists i :: 0 <= i < n && KeyOf(d.units[i], k) !in seen && e == AsEntry(d, i)
  {
    if n > 0 {
      AbsentMembers(d, k, seen, n - 1);
    }
  }

  /** Absent contributes the keys of the vintage that were not yet seen. */
  lemma {:induction false} AbsentKeys(d: Dated, k: KeyKind, seen: set<string>)
    ensures TableKeys(Absent(d, k, seen, |d.units|), k) == VintageKeys(d.units, k) - seen
  {
    var a := Absent(d, k, seen, |d.units|);
    AbsentMembers(d, k, seen, |d.units|);
    forall x | x in VintageKeys(d.units, k) - seen
      ensures x in TableKeys(a, k)
    {
      var u :| u in d.units && KeyOf(u, k) == x;
      var i :| 0 <= i < |d.units| && d.units[i] == u;
      assert AsEntry(d, i) in a;
      assert EntryKey(AsEntry(d, i), k) == x;
    }
    forall x | x in TableKeys(a, k)
      ensures x in VintageKeys(d.units, k) - seen
    {
      var e :| e in a && EntryKey(e, k) == x;
      var i :| 0 <= i < |d.units| && KeyOf(d.units[i], k) !in seen && e == AsEntry(d, i);
      assert d.units[i] in d.units;
    }
  }

  /** Each entry Absent adds is tagged with d's year code and carries an unseen key. */
  lemma AbsentFresh(d: Dated, k: KeyKind, seen: set<string>)
    ensures forall e :: e in Absent(d, k, seen, |d.units|) ==> FromVintage(e, d) && EntryKey(e, k) !in seen
  {
    AbsentMembers(d, k, seen, |d.units|);
  }

  /** The key set of the finished table is the union of the keys of all vintages. */
  lemma {:induction false} AccumulateKeys(root: Dated, older: seq<Dated>, k: KeyKind)
    ensures TableKeys(Accumulate(root, older, k), k) == VintageKeys(root.units, k) + KeysOfAll(older, k)
    decreases |older|
  {
    if older == [] {
      var t := TagAll(root);
      forall x | x in VintageKeys(root.units, k) ensures x in TableKeys(t, k) {
        var i :| 0 <= i < |root.units| && KeyOf(root.units[i], k) == x;
        assert t[i] in t;
      }
      forall x | x in TableKeys(t, k) ensures x in VintageKeys(root.units, k) {
        var e :| e in t && EntryKey(e, k) == x;
        var i :| 0 <= i < |t| && t[i] == e;
        assert root.units[i] in root.units;
      }
    } else {
      var last := older[|older| - 1];
      var p := Accumulate(root, older[..|older| - 1], k);
      AccumulateSnoc(root, older, k);
      AccumulateKeys(root, older[..|older| - 1], k);
      TableKeysAppend(p, Absent(last, k, TableKeys(p, k), |last.units|), k);
      AbsentKeys(last, k, TableKeys(p, k));
    }
  }

  /** Every entry of the table is a row of the root or of one of the older vintages. */
  lemma {:induction false} AccumulateFrom(root: Dated, older: seq<Dated>, k: KeyKind)
    ensures forall e :: e in Accumulate(root, older, k) ==>
              FromVintage(e, root) || exists j :: 0 <= j < |older| && FromVintage(e, older[j])
    decreases |older|
  {
    if older != [] {
      var n := |older| - 1;
      var p := Accumulate(root, older[..n], k);
      AccumulateFrom(root, older[..n], k);
      AbsentFresh(older[n], k, TableKeys(p, k));
      forall e | e in Accumulate(root, older, k)
        ensures FromVintage(e, root) || exists j :: 0 <= j < |older| && FromVintage(e, older[j])
      {
        if e in p {
          if !FromVintage(e, root) {
            var j :| 0 <= j < n && FromVintage(e, older[..n][j]);
            assert older[..n][j] == older[j];
          }
        } else {
          assert FromVintage(e, older[n]);
        }
      }
    }
  }

  /** Two rows of t with the same key carry the same year code. */
  predicate KeyDeterminesYear(t: seq<Entry>, k: KeyKind)
  {
    forall i, j :: 0 <= i < |t| && 0 <= j < |t| && EntryKey(t[i], k) == EntryKey(t[j], k) ==> t[i].year == t[j].year
  }

  /** Appending rows of one year code whose keys are new keeps keys tied to years. */
  lemma KeyDeterminesYearAppend(p: seq<Entry>, a: seq<Entry>, k: KeyKind, y: YearCode)
    requires KeyDeterminesYear(p, k)
    requires forall e :: e in a ==> e.year == y && EntryKey(e, k) !in TableKeys(p, k)
    ensures KeyDeterminesYear(p + a, k)
  {
    var t := p + a;
    forall i, j | 0 <= i < |t| && 0 <= j < |t| && EntryKey(t[i], k) == EntryKey(t[j], k)
      ensures t[i].year == t[j].year
    {
      if i < |p| && j < |p| {
        assert t[i] == p[i] && t[j] == p[j];
      } else if i >= |p| && j >= |p| {
        assert t[i] == a[i - |p|] && t[j] == a[j - |p|];
        assert a[i - |p|] in a && a[j - |p|] in a;
      }
    }
  }

  /** No key is re-added under a later year code: two entries with the same key
      carry the same year code (they came from the same iteration). */
  lemma {:induction false} SameKeySameYear(root: Dated, older: seq<Dated>, k: KeyKind)
    ensures KeyDeterminesYear(Accumulate(root, older, k), k)
    decreases |older|
  {
    if older == [] {
      var t := TagAll(root);
      assert forall i :: 0 <= i < |t| ==> t[i].year == root.year;
    } else {
      var n := |older| - 1;
      var p := Accumulate(root, older[..n], k);
      AccumulateSnoc(root, older, k);
      SameKeySameYear(root, older[..n], k);
      AbsentFresh(older[n], k, TableKeys(p, k));
      KeyDeterminesYearAppend(p, Absent(older[n], k, TableKeys(p, k), |older[n].units|), k, older[n].year);
    }
  }

  /** The positions of the rows of d whose key is not in seen. */
  function UnseenRows(d: Dated, k: KeyKind, seen: set<string>): set<nat>
  {
    set i | 0 <= i < |d.units| && KeyOf(d.units[i], k) !in seen
  }

  lemma AccumulateSnoc(root: Dated, older: seq<Dated>, k: KeyKind)
    requires older != []
    ensures Accumulate(root, older, k) == AddAbsent(Accumulate(root, older[..|older| - 1], k), older[|older| - 1], k)
  {
  }

  /** The rows Absent adds carry d's year code, at the positions of the unseen keys. */
  lemma AbsentRows(d: Dated, k: KeyKind, seen: set<string>)
    ensures RowsTagged(Absent(d, k, seen, |d.units|), d.year) == UnseenRows(d, k, seen)
    ensures forall y :: y != d.year ==> RowsTagged(Absent(d, k, seen, |d.units|), y) == {}
  {
    var a := Absent(d, k, seen, |d.units|);
    AbsentMembers(d, k, seen, |d.units|);
    forall i | i in UnseenRows(d, k, seen) ensures i in RowsTagged(a, d.year) {
      assert AsEntry(d, i) in a;
    }
  }

  /** A table built before vintage y was processed has no row tagged y. */
  lemma UntaggedBefore(root: Dated, older: seq<Dated>, k: KeyKind, y: YearCode)
    requires y != root.year
    requires forall j :: 0 <= j < |older| ==> older[j].year != y
    ensures RowsTagged(Accumulate(root, older, k), y) == {}
  {
    AccumulateFrom(root, older, k);
    forall e | e in Accumulate(root, older, k) ensures e.year != y {
      if !FromVintage(e, root) {
        var i :| 0 <= i < |older| && FromVintage(e, older[i]);
      }
    }
  }

  /** The rows of older vintage j that end up in the table are exactly those whose
      key was absent from the table built from the vintages processed before it. */
  lemma {:induction false} TaggedRows(root: Dated, older: seq<Dated>, k: KeyKind, j: nat)
    requires DistinctYears(root, older)
    requires j < |older|
    ensures RowsTagged(Accumulate(root, older, k), older[j].year)
         == UnseenRows(older[j], k, TableKeys(Accumulate(root, older[..j], k), k))
    decreases |older|
  {
    var n := |older| - 1;
    var pre := older[..n];
    assert forall i :: 0 <= i < n ==> pre[i] == older[i];
    var y := older[j].year;
    var p := Accumulate(root, pre, k);
    var a := Absent(older[n], k, TableKeys(p, k), |older[n].units|);
    AccumulateSnoc(root, older, k);
    RowsTaggedAppend(p, a, y);
    AbsentRows(older[n], k, TableKeys(p, k));
    if j == n {
      UntaggedBefore(root, pre, k, y);
    } else {
      assert pre[..j] == older[..j];
      TaggedRows(root, pre, k, j);
    }
  }

  /** row_checks flags row i of vintage j exactly when one, and only one, of its
      code and its name was already present in a vintage processed before it. */
  lemma RowChecksMeaning(root: Dated, older: seq<Dated>, j: nat, i: nat)
    requires DistinctYears(root, older)
    requires j < |older|
    ensures i in RowChecks(Accumulate(root, older, ByCode), Accumulate(root, older, ByName), older[j].year)
        <==> i < |older[j].units|
             && ((older[j].units[i].code in Codes(root.units) + KeysOfAll(older[..j], ByCode))
                 != (older[j].units[i].name in Names(root.units) + KeysOfAll(older[..j], ByName)))
  {
    TaggedRows(root, older, ByCode, j);
    TaggedRows(root, older, ByName, j);
    AccumulateKeys(root, older[..j], ByCode);
    AccumulateKeys(root, older[..j], ByName);
  }
}
