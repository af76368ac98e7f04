/** lad_multiyear_lookup: every (name, code, year code) row of the all-years
    tables rooted at 2023, for the year codes the wide table has a column
    for, left-merged onto combo on that year's code column to pick up the
    2023 and 2021 code and name the district maps to. */
module Lookup {
  import opened LadTypes
  import opened AllYears
  import opened Combo

  /** The LADNM, LADCD and 'year code' columns of an all-years row; the
      index is dropped by drop_duplicates, which compares columns only. */
  datatype Key = Key(name: Name, code: Code, year: YearCode)

  /** One row of the lookup: LADNM, LADCD, year code, then the 2023 and the
      2021 (code, name) the merge attached. */
  datatype LookupRow = LookupRow(name: Name, code: Code, year: YearCode, lad23: Cell, lad21: Cell)

  function KeyOfEntry(e: Entry): Key
  {
    Key(e.name, e.code, e.year)
  }

  function RowKey(o: LookupRow): Key
  {
    Key(o.name, o.code, o.year)
  }

  /** year_code_list, in loop order. */
  const LookupYears: seq<YearCode> := [LAD23, LAD21, LAD20, LAD19, LAD18, LAD17, LAD11]

  /** The year codes combo has a column pair for (the 2015 and 2016 lists
      take part only in the persistent filter). */
  predicate InCombo(y: YearCode)
  {
    y != LAD15 && y != LAD16
  }

  /** The position of year y's cell in a combo row: LAD11, LAD17 .. LAD21, LAD23. */
  function Column(y: YearCode): nat
    requires InCombo(y)
  {
    match y
    case LAD11 => 0
    case LAD17 => 1
    case LAD18 => 2
    case LAD19 => 3
    case LAD20 => 4
    case LAD21 => 5
    case LAD23 => 6
  }

  /** Every combo row has its seven (code, name) cells. */
  predicate WideRows(combo: seq<Row>)
  {
    forall i :: 0 <= i < |combo| ==> |combo[i]| == 7
  }

  ghost predicate Distinct<T>(s: seq<T>)
  {
    forall i, j :: 0 <= i < j < |s| ==> s[i] != s[j]
  }

  /** Dropping duplicate rows keeps the first occurrence of every row, in order. */
  function Dedup<T(==,!new)>(s: seq<T>): (d: seq<T>)
    ensures forall x :: x in d <==> x in s
    ensures Distinct(d)
    decreases |s|
  {
    if s == [] then []
    else
      var x := s[|s| - 1];
      var p := Dedup(s[..|s| - 1]);
      assert forall y :: y in s <==> y in s[..|s| - 1] || y == x;
      if x in p then p else p + [x]
  }

  /** drop_duplicates leaves a table without repeated rows as it is, so
      dropping twice is dropping once. */
  lemma {:induction false} DedupDistinct<T(!new)>(s: seq<T>)
    requires Distinct(s)
    ensures Dedup(s) == s
    decreases |s|
  {
    if s != [] {
      var n := |s| - 1;
      assert Distinct(s[..n]);
      DedupDistinct(s[..n]);
      assert s[n] !in s[..n] by {
        forall i | 0 <= i < n ensures s[..n][i] != s[n] {
          assert s[i] != s[n];
        }
      }
      assert s == s[..n] + [s[n]];
    }
  }

  /** Key k is some row of table t. */
  predicate InTable(k: Key, t: seq<Entry>)
  {
    exists i :: 0 <= i < |t| && KeyOfEntry(t[i]) == k
  }

  /** The rows of an all-years table tagged y, in table order, without their index labels. */
  function Tagged(t: seq<Entry>, y: YearCode): (ks: seq<Key>)
    ensures forall k :: k in ks ==> k.year == y && InTable(k, t)
    decreases |t|
  {
    if t == [] then []
    else
      var n := |t| - 1;
      var p := Tagged(t[..n], y);
      assert forall k :: InTable(k, t[..n]) ==> InTable(k, t) by {
        forall k | InTable(k, t[..n]) ensures InTable(k, t) {
          var i :| 0 <= i < n && KeyOfEntry(t[..n][i]) == k;
          assert t[i] == t[..n][i];
        }
      }
      p + (if t[n].year == y then [KeyOfEntry(t[n])] else [])
  }

  /** Every row of t tagged y is in Tagged(t, y). */
  lemma {:induction false} TaggedComplete(t: seq<Entry>, y: YearCode)
    ensures forall i :: 0 <= i < |t| && t[i].year == y ==> KeyOfEntry(t[i]) in Tagged(t, y)
    decreases |t|
  {
    if t != [] {
      var n := |t| - 1;
      TaggedComplete(t[..n], y);
      forall i | 0 <= i < n && t[i].year == y ensures KeyOfEntry(t[i]) in Tagged(t, y) {
        assert t[..n][i] == t[i];
      }
    }
  }

  /** The year-y rows of the code table then those of the name table, without duplicates: the year-y keys
      of the code-keyed and the name-keyed table. */
  function YearKeys(codeTable: seq<Entry>, nameTable: seq<Entry>, y: YearCode): (ks: seq<Key>)
    ensures Distinct(ks)
    ensures forall j :: 0 <= j < |ks| ==> ks[j].year == y
  {
    var ks := Dedup(Tagged(codeTable, y) + Tagged(nameTable, y));
    assert forall j :: 0 <= j < |ks| ==> ks[j] in ks;
    ks
  }

  /** A key of YearKeys is a year-y row of one of the two tables, and every
      such row gives one. */
  lemma YearKeysMembers(codeTable: seq<Entry>, nameTable: seq<Entry>, y: YearCode)
    ensures forall k :: k in YearKeys(codeTable, nameTable, y) <==>
      k.year == y && (InTable(k, codeTable) || InTable(k, nameTable))
  {
    TaggedComplete(codeTable, y);
    TaggedComplete(nameTable, y);
    var ks := YearKeys(codeTable, nameTable, y);
    forall k: Key | k.year == y && (InTable(k, codeTable) || InTable(k, nameTable)) ensures k in ks {
      if InTable(k, codeTable) {
        var i :| 0 <= i < |codeTable| && KeyOfEntry(codeTable[i]) == k;
      } else {
        var i :| 0 <= i < |nameTable| && KeyOfEntry(nameTable[i]) == k;
      }
    }
  }

  /** Combo row r carries key k's code in k's year column, the merge's match of LADCD
      against that year's code column. */
  predicate Hits(r: Row, k: Key)
    requires InCombo(k.year) && |r| == 7
  {
    r[Column(k.year)].code == Some(k.code)
  }

  /** No row of combo carries k's code in k's year column. */
  predicate NoHit(k: Key, combo: seq<Row>)
    requires InCombo(k.year) && WideRows(combo)
  {
    forall i :: 0 <= i < |combo| ==> !Hits(combo[i], k)
  }

  /** The lookup row key k gets from a combo row it hits: the 2023 columns
      of the row, and its 2021 columns, except for a 2023 key, whose 2021
      columns are copies of the 2023 ones. */
  function LinkRow(k: Key, r: Row): LookupRow
    requires |r| == 7
  {
    if k.year == LAD23 then LookupRow(k.name, k.code, k.year, r[6], r[6])
    else LookupRow(k.name, k.code, k.year, r[6], r[5])
  }

  /** The left merge's row for a key no combo row hits: the added columns are missing. */
  function Unlinked(k: Key): LookupRow
  {
    LookupRow(k.name, k.code, k.year, Cell(None, None), Cell(None, None))
  }

  /** o is the merge of k with a combo row that k hits. */
  predicate LinkedTo(o: LookupRow, k: Key, combo: seq<Row>)
    requires InCombo(k.year) && WideRows(combo)
  {
    exists i :: 0 <= i < |combo| && Hits(combo[i], k) && o == LinkRow(k, combo[i])
  }

  /** o is a row the left merge gives key k. */
  predicate Linked(o: LookupRow, k: Key, combo: seq<Row>)
    requires InCombo(k.year) && WideRows(combo)
  {
    LinkedTo(o, k, combo) || (NoHit(k, combo) && o == Unlinked(k))
  }

  /** The matches of k in combo, in combo order. */
  function Links(k: Key, combo: seq<Row>): (ls: seq<LookupRow>)
    requires InCombo(k.year) && WideRows(combo)
    ensures forall o :: o in ls <==> LinkedTo(o, k, combo)
    ensures ls == [] <==> NoHit(k, combo)
    decreases |combo|
  {
    if combo == [] then []
    else
      var n := |combo| - 1;
      var p := Links(k, combo[..n]);
      assert forall j :: 0 <= j < n ==> combo[..n][j] == combo[j];
      LinksAppend(k, combo, p);
      p + (if Hits(combo[n], k) then [LinkRow(k, combo[n])] else [])
  }

  lemma LinksAppend(k: Key, combo: seq<Row>, p: seq<LookupRow>)
    requires InCombo(k.year) && WideRows(combo) && |combo| > 0
    requires forall o :: o in p <==> LinkedTo(o, k, combo[..|combo| - 1])
    requires p == [] <==> NoHit(k, combo[..|combo| - 1])
    ensures var n := |combo| - 1;
      var ls := p + (if Hits(combo[n], k) then [LinkRow(k, combo[n])] else []);
      (forall o :: o in ls <==> LinkedTo(o, k, combo)) && (ls == [] <==> NoHit(k, combo))
  {
    var n := |combo| - 1;
    var pre := combo[..n];
    assert forall j :: 0 <= j < n ==> pre[j] == combo[j];
    var ls := p + (if Hits(combo[n], k) then [LinkRow(k, combo[n])] else []);
    forall o | o in ls ensures LinkedTo(o, k, combo) {
      if o in p {
        var j :| 0 <= j < n && Hits(pre[j], k) && o == LinkRow(k, pre[j]);
      }
    }
    forall o | LinkedTo(o, k, combo) ensures o in ls {
      var j :| 0 <= j < |combo| && Hits(combo[j], k) && o == LinkRow(k, combo[j]);
      if j < n {
        assert LinkedTo(o, k, pre);
      }
    }
    if ls == [] {
      forall j | 0 <= j < |combo| ensures !Hits(combo[j], k) {
        if j < n {
          assert !Hits(pre[j], k);
        }
      }
    }
    if NoHit(k, combo) {
      assert NoHit(k, pre);
    }
  }

  /** The left merge onto combo for one key: its matches, or one
      row with the merged columns missing when it has none. */
  function LinkKey(k: Key, combo: seq<Row>): seq<LookupRow>
    requires InCombo(k.year) && WideRows(combo)
  {
    var ls := Links(k, combo);
    if ls == [] then [Unlinked(k)] else ls
  }

  /** The left merge gives key k at least one row, and exactly the rows Linked describes. */
  lemma LinkKeyMembers(k: Key, combo: seq<Row>)
    requires InCombo(k.year) && WideRows(combo)
    ensures |LinkKey(k, combo)| > 0
    ensures forall o :: o in LinkKey(k, combo) <==> Linked(o, k, combo)
  {
    if Links(k, combo) != [] {
      assert !NoHit(k, combo);
    }
  }

  /** Every row the merge gives key k keeps k's LADNM, LADCD and year code. */
  lemma LinkedKey(o: LookupRow, k: Key, combo: seq<Row>)
    requires InCombo(k.year) && WideRows(combo)
    requires Linked(o, k, combo)
    ensures RowKey(o) == k
  {
  }

  /** The left merge of a whole key list, key by key. */
  function LinkAll(ks: seq<Key>, combo: seq<Row>): seq<LookupRow>
    requires forall j :: 0 <= j < |ks| ==> InCombo(ks[j].year)
    requires WideRows(combo)
    decreases |ks|
  {
    if ks == [] then []
    else LinkAll(ks[..|ks| - 1], combo) + LinkKey(ks[|ks| - 1], combo)
  }

  /** A row of the merged key list belongs to the key it carries. */
  lemma {:induction false} LinkAllMembers(ks: seq<Key>, combo: seq<Row>)
    requires forall j :: 0 <= j < |ks| ==> InCombo(ks[j].year)
    requires WideRows(combo)
    ensures forall o :: o in LinkAll(ks, combo) <==> RowKey(o) in ks && Linked(o, RowKey(o), combo)
    decreases |ks|
  {
    if ks != [] {
      var n := |ks| - 1;
      var pre := ks[..n];
      assert ks == pre + [ks[n]];
      assert forall j :: 0 <= j < |pre| ==> pre[j] == ks[j];
      LinkAllMembers(pre, combo);
      LinkKeyMembers(ks[n], combo);
      assert LinkAll(ks, combo) == LinkAll(pre, combo) + LinkKey(ks[n], combo);
      LinkAllAppend(LinkAll(pre, combo), LinkKey(ks[n], combo), pre, ks[n], combo);
    }
  }

  lemma LinkAllAppend(prev: seq<LookupRow>, last: seq<LookupRow>, pre: seq<Key>, k: Key, combo: seq<Row>)
    requires forall j :: 0 <= j < |pre| ==> InCombo(pre[j].year)
    requires InCombo(k.year) && WideRows(combo)
    requires forall o :: o in prev <==> RowKey(o) in pre && Linked(o, RowKey(o), combo)
    requires forall o :: o in last <==> Linked(o, k, combo)
    ensures forall o :: o in prev + last <==> RowKey(o) in pre + [k] && Linked(o, RowKey(o), combo)
  {
    forall o | o in last ensures RowKey(o) == k {
      LinkedKey(o, k, combo);
    }
  }

  /** One iteration of the loop: the year's keys merged onto combo, then duplicates dropped. */
  function Block(y: YearCode, codeTable: seq<Entry>, nameTable: seq<Entry>, combo: seq<Row>): (b: seq<LookupRow>)
    requires InCombo(y) && WideRows(combo)
    ensures Distinct(b)
  {
    Dedup(LinkAll(YearKeys(codeTable, nameTable, y), combo))
  }

  /** What every row of a block has, whatever its year: a year code combo has
      a column for, a key taken from either all-years table, and the row the
      left merge on that year's code column gives that key. */
  predicate Belongs(o: LookupRow, codeTable: seq<Entry>, nameTable: seq<Entry>, combo: seq<Row>)
    requires WideRows(combo)
  {
    && InCombo(o.year)
    && (InTable(RowKey(o), codeTable) || InTable(RowKey(o), nameTable))
    && Linked(o, RowKey(o), combo)
  }

  /** A row is in year y's block exactly when it has year code y and belongs. */
  lemma BlockMembers(y: YearCode, codeTable: seq<Entry>, nameTable: seq<Entry>, combo: seq<Row>)
    requires InCombo(y) && WideRows(combo)
    ensures forall o :: o in Block(y, codeTable, nameTable, combo) <==>
      o.year == y && Belongs(o, codeTable, nameTable, combo)
  {
    YearKeysMembers(codeTable, nameTable, y);
    LinkAllMembers(YearKeys(codeTable, nameTable, y), combo);
  }

  predicate AllInCombo(years: seq<YearCode>)
  {
    forall j :: 0 <= j < |years| ==> InCombo(years[j])
  }

  /** The concatenated blocks after the loop has run over the given year codes. */
  function Concatenated(years: seq<YearCode>, codeTable: seq<Entry>, nameTable: seq<Entry>, combo: seq<Row>): seq<LookupRow>
    requires AllInCombo(years) && WideRows(combo)
    decreases |years|
  {
    if years == [] then []
    else
      var n := |years| - 1;
      Concatenated(years[..n], codeTable, nameTable, combo) + Block(years[n], codeTable, nameTable, combo)
  }

  lemma ConcatenatedSnoc(years: seq<YearCode>, y: YearCode, codeTable: seq<Entry>, nameTable: seq<Entry>, combo: seq<Row>)
    requires AllInCombo(years) && InCombo(y) && WideRows(combo)
    ensures AllInCombo(years + [y])
    ensures Concatenated(years + [y], codeTable, nameTable, combo) ==
      Concatenated(years, codeTable, nameTable, combo) + Block(y, codeTable, nameTable, combo)
  {
    assert (years + [y])[..|years|] == years;
  }

  lemma {:induction false} ConcatenatedMembers(years: seq<YearCode>, codeTable: seq<Entry>, nameTable: seq<Entry>, combo: seq<Row>)
    requires AllInCombo(years) && WideRows(combo)
    ensures forall o :: o in Concatenated(years, codeTable, nameTable, combo) <==>
      o.year in years && Belongs(o, codeTable, nameTable, combo)
    decreases |years|
  {
    if years != [] {
      var n := |years| - 1;
      var pre := years[..n];
      ConcatenatedMembers(pre, codeTable, nameTable, combo);
      BlockMembers(years[n], codeTable, nameTable, combo);
      assert years == pre + [years[n]];
    }
  }

  /** Blocks of different year codes share no row, and each is free of repeats. */
  lemma {:induction false} ConcatenatedDistinct(years: seq<YearCode>, codeTable: seq<Entry>, nameTable: seq<Entry>, combo: seq<Row>)
    requires AllInCombo(years) && WideRows(combo)
    requires Distinct(years)
    ensures Distinct(Concatenated(years, codeTable, nameTable, combo))
    decreases |years|
  {
    if years != [] {
      var n := |years| - 1;
      var pre := years[..n];
      assert Distinct(pre);
      ConcatenatedDistinct(pre, codeTable, nameTable, combo);
      ConcatenatedMembers(pre, codeTable, nameTable, combo);
      BlockMembers(years[n], codeTable, nameTable, combo);
      assert years[n] !in pre by {
        forall j | 0 <= j < n ensures pre[j] != years[n] {
          assert years[j] != years[n];
        }
      }
      DistinctAppend(Concatenated(pre, codeTable, nameTable, combo), Block(years[n], codeTable, nameTable, combo));
    }
  }

  lemma DistinctAppend<T(!new)>(a: seq<T>, b: seq<T>)
    requires Distinct(a) && Distinct(b)
    requires forall x :: x in a ==> x !in b
    ensures Distinct(a + b)
  {
    forall i, j | 0 <= i < j < |a + b| ensures (a + b)[i] != (a + b)[j] {
      if j < |a| {
        assert (a + b)[i] == a[i] && (a + b)[j] == a[j];
      } else if i < |a| {
        assert (a + b)[i] == a[i] && (a + b)[j] == b[j - |a|];
        assert b[j - |a|] in b;
      } else {
        assert (a + b)[i] == b[i - |a|] && (a + b)[j] == b[j - |a|];
      }
    }
  }

  /** lad_multiyear_lookup */
  function MultiyearLookup(codeTable: seq<Entry>, nameTable: seq<Entry>, combo: seq<Row>): seq<LookupRow>
    requires WideRows(combo)
  {
    Concatenated(LookupYears, codeTable, nameTable, combo)
  }

  /** A row is in the lookup exactly when its year code is in year_code_list,
      its key is a row of either all-years table, and the left merge on that
      year's code column gives its key this row. */
  lemma LookupMembers(codeTable: seq<Entry>, nameTable: seq<Entry>, combo: seq<Row>)
    requires WideRows(combo)
    ensures forall o :: o in MultiyearLookup(codeTable, nameTable, combo) <==>
      o.year in LookupYears && Belongs(o, codeTable, nameTable, combo)
  {
    ConcatenatedMembers(LookupYears, codeTable, nameTable, combo);
  }

  /** No row appears twice in the lookup. */
  lemma LookupDistinct(codeTable: seq<Entry>, nameTable: seq<Entry>, combo: seq<Row>)
    requires WideRows(combo)
    ensures Distinct(MultiyearLookup(codeTable, nameTable, combo))
  {
    assert Distinct(LookupYears);
    ConcatenatedDistinct(LookupYears, codeTable, nameTable, combo);
  }

  /** Every row of either all-years table whose year code is listed is
      represented in the lookup by at least one row with its key. */
  lemma LookupComplete(codeTable: seq<Entry>, nameTable: seq<Entry>, combo: seq<Row>, e: Entry)
    requires WideRows(combo)
    requires e in codeTable || e in nameTable
    requires e.year in LookupYears
    ensures exists o :: o in MultiyearLookup(codeTable, nameTable, combo) && RowKey(o) == KeyOfEntry(e)
  {
    var k := KeyOfEntry(e);
    LinkKeyMembers(k, combo);
    var o := LinkKey(k, combo)[0];
    LinkedKey(o, k, combo);
    if e in codeTable {
      var i :| 0 <= i < |codeTable| && codeTable[i] == e;
      assert InTable(k, codeTable);
    } else {
      var i :| 0 <= i < |nameTable| && nameTable[i] == e;
      assert InTable(k, nameTable);
    }
    LookupMembers(codeTable, nameTable, combo);
    assert o in MultiyearLookup(codeTable, nameTable, combo);
  }

  /** A LAD23 row's 2021 columns are its 2023 columns. */
  lemma LookupCopies2023(codeTable: seq<Entry>, nameTable: seq<Entry>, combo: seq<Row>)
    requires WideRows(combo)
    ensures forall o :: o in MultiyearLookup(codeTable, nameTable, combo) && o.year == LAD23 ==> o.lad21 == o.lad23
  {
    LookupMembers(codeTable, nameTable, combo);
  }

  lemma LookupYearsInCombo(i: nat)
    requires i < |LookupYears|
    ensures InCombo(LookupYears[i])
  {
  }

  lemma LookupStep(i: nat, codeTable: seq<Entry>, nameTable: seq<Entry>, combo: seq<Row>)
    requires i < |LookupYears| && WideRows(combo)
    ensures AllInCombo(LookupYears[..i]) && AllInCombo(LookupYears[..i + 1])
    ensures Concatenated(LookupYears[..i + 1], codeTable, nameTable, combo) ==
      Concatenated(LookupYears[..i], codeTable, nameTable, combo) + Block(LookupYears[i], codeTable, nameTable, combo)
  {
    assert LookupYears[..i + 1] == LookupYears[..i] + [LookupYears[i]];
    ConcatenatedSnoc(LookupYears[..i], LookupYears[i], codeTable, nameTable, combo);
  }

  /** The loop over year_code_list; appending each block to df_list and
      concatenating the list at the end is appending each block to the
      result as it is made. */
  method BuildLookup(codeTable: seq<Entry>, nameTable: seq<Entry>, combo: seq<Row>) returns (lookup: seq<LookupRow>)
    requires WideRows(combo)
    ensures lookup == MultiyearLookup(codeTable, nameTable, combo)
    ensures Distinct(lookup)
    ensures forall o :: o in lookup <==> o.year in LookupYears && Belongs(o, codeTable, nameTable, combo)
  {
    lookup := [];
    for i := 0 to |LookupYears|
      invariant AllInCombo(LookupYears[..i])
      invariant lookup == Concatenated(LookupYears[..i], codeTable, nameTable, combo)
    {
      var y := LookupYears[i];
      assert InCombo(y) by { LookupYearsInCombo(i); }
      var keys := YearKeys(codeTable, nameTable, y);
      var block := LinkAll(keys, combo);
      block := Dedup(block);
      LookupStep(i, codeTable, nameTable, combo);
      lookup := lookup + block;
    }
    assert LookupYears[..|LookupYears|] == LookupYears;
    LookupDistinct(codeTable, nameTable, combo);
    LookupMembers(codeTable, nameTable, combo);
  }
}
