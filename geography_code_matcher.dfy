/** build_lad_mappers of geography_code_matcher.py, stage by stage: the four
    all-years tables, the row_checks diagnostics, the curated transition
    tables resolved against their vintages, the wide table `combo`, the long
    lookup lad_multiyear_lookup, and the lower-cased output headers. Reading
    and writing the CSV files is left to the caller: the code lists come in
    as values and the tables go out as values. */
module GeographyCodeMatcher {
  import opened LadTypes
  import opened AllYears
  import opened Transitions
  import opened Combo
  import opened Lookup

  /** code_years: the code list of every vintage the builder uses. */
  datatype CodeLists = CodeLists(v11: Vintage, v15: Vintage, v16: Vintage, v17: Vintage, v18: Vintage,
                                 v19: Vintage, v20: Vintage, v21: Vintage, v23: Vintage)

  /** The vintages older than 2021, newest first: the loop list of the
      2021-rooted tables. */
  function Older21(c: CodeLists): seq<Dated>
  {
    [Dated(LAD20, c.v20), Dated(LAD19, c.v19), Dated(LAD18, c.v18), Dated(LAD17, c.v17),
     Dated(LAD16, c.v16), Dated(LAD15, c.v15), Dated(LAD11, c.v11)]
  }

  /** The loop list of the 2023-rooted tables: 2021, then the vintages older than 2021. */
  function Older23(c: CodeLists): seq<Dated>
  {
    [Dated(LAD21, c.v21)] + Older21(c)
  }

  /** all_years_23, all_years_23_names, all_years_21, all_years_21_names. */
  datatype AllYearsTables = AllYearsTables(byCode23: seq<Entry>, byName23: seq<Entry>,
                                           byCode21: seq<Entry>, byName21: seq<Entry>)

  function Tables(c: CodeLists): AllYearsTables
  {
    AllYearsTables(Accumulate(Dated(LAD23, c.v23), Older23(c), ByCode),
                   Accumulate(Dated(LAD23, c.v23), Older23(c), ByName),
                   Accumulate(Dated(LAD21, c.v21), Older21(c), ByCode),
                   Accumulate(Dated(LAD21, c.v21), Older21(c), ByName))
  }

  /** The four accumulation loops. */
  method BuildTables(c: CodeLists) returns (t: AllYearsTables)
    ensures t == Tables(c)
    ensures TableKeys(t.byCode23, ByCode) == Codes(c.v23) + KeysOfAll(Older23(c), ByCode)
    ensures TableKeys(t.byName23, ByName) == Names(c.v23) + KeysOfAll(Older23(c), ByName)
    ensures TableKeys(t.byCode21, ByCode) == Codes(c.v21) + KeysOfAll(Older21(c), ByCode)
    ensures TableKeys(t.byName21, ByName) == Names(c.v21) + KeysOfAll(Older21(c), ByName)
  {
    var byCode23 := BuildAllYears(Dated(LAD23, c.v23), Older23(c), ByCode);
    var byName23 := BuildAllYears(Dated(LAD23, c.v23), Older23(c), ByName);
    var byCode21 := BuildAllYears(Dated(LAD21, c.v21), Older21(c), ByCode);
    var byName21 := BuildAllYears(Dated(LAD21, c.v21), Older21(c), ByName);
    t := AllYearsTables(byCode23, byName23, byCode21, byName21);
  }

  /** The year codes of the nine row_checks, in source order: 21-23, 20-21,
      19-20, 18-19, 17-18, 16-17, 15-16, 11-15 and 11-17 (the last two both
      look at the rows tagged LAD11). */
  const CheckedYears: seq<YearCode> := [LAD21, LAD20, LAD19, LAD18, LAD17, LAD16, LAD15, LAD11, LAD11]

  /** The nine row_checks diagnostics, each over the 2023-rooted tables. */
  method Diagnose(t: AllYearsTables) returns (checks: seq<set<nat>>)
    ensures |checks| == |CheckedYears|
    ensures forall k :: 0 <= k < |checks| ==> checks[k] == RowChecks(t.byCode23, t.byName23, CheckedYears[k])
  {
    checks := [];
    for k := 0 to |CheckedYears|
      invariant |checks| == k
      invariant forall j :: 0 <= j < k ==> checks[j] == RowChecks(t.byCode23, t.byName23, CheckedYears[j])
    {
      checks := checks + [RowChecks(t.byCode23, t.byName23, CheckedYears[k])];
    }
  }

  /** changes_11_17, resolved by merging 2017 first, then 2011. */
  function Transitions1117(c: CodeLists): seq<Transition>
  {
    Resolve(Changes1117(), c.v11, c.v17, false)
  }

  /** changes_17_18 ... changes_21_23 in chain order. Every table merges the
      new vintage first except 21-23, which merges 2021 first. */
  function Periods(c: CodeLists): seq<seq<Transition>>
  {
    [Resolve(Changes1718(), c.v17, c.v18, false),
     Resolve(Changes1819(), c.v18, c.v19, false),
     Resolve(Changes1920(), c.v19, c.v20, false),
     Resolve(Changes2021(), c.v20, c.v21, false),
     Resolve(Changes2123(), c.v21, c.v23, true)]
  }

  /** The base of combo: the persistent rows, then the Northern Ireland rows,
      then the 2011 -> 2017 transitions. */
  function ComboBase(c: CodeLists): (rows: seq<Row>)
    ensures NonEmptyRows(rows)
  {
    Base(c.v11, c.v15, c.v16, c.v17, Transitions1117(c))
  }

  /** combo: the base rows carried through the five periods. Every row has
      its seven (code, name) cells, the base pair plus one per period. */
  function ComboTable(c: CodeLists): (rows: seq<Row>)
    ensures WideRows(rows)
  {
    ChainWidth(ComboBase(c), Periods(c), 2);
    Chain(ComboBase(c), Periods(c))
  }

  /** The five merge-and-fill periods applied to the base rows. */
  method BuildComboTable(c: CodeLists) returns (combo: seq<Row>)
    ensures combo == ComboTable(c)
  {
    var periods := Periods(c);
    combo := BuildCombo(ComboBase(c), periods[0], periods[1], periods[2], periods[3], periods[4]);
    assert [periods[0], periods[1], periods[2], periods[3], periods[4]] == periods;
  }

  // ---------------------------------------------------------------------------
  // Output headers
  // ---------------------------------------------------------------------------

  predicate IsUpper(ch: char)
  {
    'A' <= ch <= 'Z'
  }

  /** Lower-casing one character of a column name. */
  function LowerChar(ch: char): char
  {
    if IsUpper(ch) then (ch as int + 32) as char else ch
  }

  /** Lower-casing a column name: the name with every upper-case letter replaced by its
      lower-case partner and every other character kept. */
  function Lower(s: string): (r: string)
    ensures |r| == |s|
    ensures forall i :: 0 <= i < |s| ==> !IsUpper(r[i])
    ensures forall i :: 0 <= i < |s| && !IsUpper(s[i]) ==> r[i] == s[i]
    ensures forall i :: 0 <= i < |s| && IsUpper(s[i]) ==> r[i] == (s[i] as int + 32) as char
  {
    seq(|s|, i requires 0 <= i < |s| => LowerChar(s[i]))
  }

  /** Lower-casing a lower-case name changes nothing, so it is idempotent. */
  lemma LowerFixed(s: string)
    requires forall i :: 0 <= i < |s| ==> !IsUpper(s[i])
    ensures Lower(s) == s
  {
  }

  /** Every column name lower-cased, in order. */
  function LowerAll(columns: seq<string>): (r: seq<string>)
    ensures |r| == |columns|
    ensures forall i :: 0 <= i < |columns| ==> r[i] == Lower(columns[i])
  {
    seq(|columns|, i requires 0 <= i < |columns| => Lower(columns[i]))
  }

  /** The year code column renamed to year_code; the other names kept. */
  function RenameYearCode(columns: seq<string>): (r: seq<string>)
    ensures |r| == |columns|
    ensures forall i :: 0 <= i < |columns| ==> r[i] == (if columns[i] == "year code" then "year_code" else columns[i])
  {
    seq(|columns|, i requires 0 <= i < |columns| => if columns[i] == "year code" then "year_code" else columns[i])
  }

  /** The lower-cased combo header names each vintage's code and name
      columns in the form the vintage checker looks for. */
  lemma ComboHeaderNames()
    ensures LowerAll(ComboColumns) ==
      ["lad11cd", "lad11nm", "lad17cd", "lad17nm", "lad18cd", "lad18nm", "lad19cd", "lad19nm",
       "lad20cd", "lad20nm", "lad21cd", "lad21nm", "lad23cd", "lad23nm"]
  {
    LowerYearColumns('1', '1');
    LowerYearColumns('1', '7');
    LowerYearColumns('1', '8');
    LowerYearColumns('1', '9');
    LowerYearColumns('2', '0');
    LowerYearColumns('2', '1');
    LowerYearColumns('2', '3');
  }

  /** The lower-cased lookup header, with the year code column renamed. */
  lemma LookupHeaderNames()
    ensures RenameYearCode(LowerAll(LookupColumns)) ==
      ["ladnm", "ladcd", "year_code", "lad23nm", "lad23cd", "lad21nm", "lad21cd"]
  {
    LowerPlainColumns();
    LowerYearColumns('2', '3');
    LowerYearColumns('2', '1');
  }

  /** The code and name columns of the vintage whose year ends in the digits
      a, b, lower-cased. */
  lemma LowerYearColumns(a: char, b: char)
    requires !IsUpper(a) && !IsUpper(b)
    ensures Lower(['L', 'A', 'D', a, b, 'C', 'D']) == ['l', 'a', 'd', a, b, 'c', 'd']
    ensures Lower(['L', 'A', 'D', a, b, 'N', 'M']) == ['l', 'a', 'd', a, b, 'n', 'm']
  {
  }

  /** The lookup's own code, name and year code columns, lower-cased. */
  lemma LowerPlainColumns()
    ensures Lower("LADNM") == "ladnm" && Lower("LADCD") == "ladcd"
    ensures Lower("year code") == "year code"
  {
    LowerFixed("year code");
  }

  /** The columns of combo, in vintage order. */
  const ComboColumns: seq<string> :=
    ["LAD11CD", "LAD11NM", "LAD17CD", "LAD17NM", "LAD18CD", "LAD18NM", "LAD19CD", "LAD19NM",
     "LAD20CD", "LAD20NM", "LAD21CD", "LAD21NM", "LAD23CD", "LAD23NM"]

  /** The seven columns lad_multiyear_lookup keeps, its first seven. */
  const LookupColumns: seq<string> := ["LADNM", "LADCD", "year code", "LAD23NM", "LAD23CD", "LAD21NM", "LAD21CD"]

  // ---------------------------------------------------------------------------
  // The whole builder
  // ---------------------------------------------------------------------------

  /** Everything build_lad_mappers computes. */
  datatype Mappings = Mappings(tables: AllYearsTables, rowChecks: seq<set<nat>>, combo: seq<Row>,
                               lookup: seq<LookupRow>, comboHeader: seq<string>, lookupHeader: seq<string>)

  method BuildLadMappers(c: CodeLists) returns (m: Mappings)
    ensures m.tables == Tables(c)
    ensures |m.rowChecks| == |CheckedYears|
    ensures forall k :: 0 <= k < |m.rowChecks| ==> m.rowChecks[k] == RowChecks(m.tables.byCode23, m.tables.byName23, CheckedYears[k])
    ensures m.combo == ComboTable(c)
    ensures m.lookup == MultiyearLookup(m.tables.byCode23, m.tables.byName23, m.combo)
    ensures m.comboHeader == LowerAll(ComboColumns)
    ensures m.lookupHeader == RenameYearCode(LowerAll(LookupColumns))
  {
    var tables := BuildTables(c);
    var checks := Diagnose(tables);
    var combo := BuildComboTable(c);
    var lookup := BuildLookup(tables.byCode23, tables.byName23, combo);
    m := Mappings(tables, checks, combo, lookup, LowerAll(ComboColumns), RenameYearCode(LowerAll(LookupColumns)));
  }

  // ---------------------------------------------------------------------------
  // The combo table keeps one row per base row
  // ---------------------------------------------------------------------------

  /** Every curated pair of a table names exactly one district in each of its
      two vintages. */
  predicate AllResolveOnce(pairs: seq<NamePair>, oldV: Vintage, newV: Vintage)
  {
    forall k :: 0 <= k < |pairs| ==> ResolvesOnce(pairs[k], oldV, newV)
  }

  /** The five curated tables of the chain all resolve one to one. */
  predicate CuratedResolve(c: CodeLists)
  {
    && AllResolveOnce(Changes1718(), c.v17, c.v18)
    && AllResolveOnce(Changes1819(), c.v18, c.v19)
    && AllResolveOnce(Changes1920(), c.v19, c.v20)
    && AllResolveOnce(Changes2021(), c.v20, c.v21)
    && AllResolveOnce(Changes2123(), c.v21, c.v23)
  }

  /** When the curated names resolve one to one, no period's merge meets a
      duplicated (code, name) key. */
  lemma PeriodsUnique(c: CodeLists)
    requires CuratedResolve(c)
    ensures forall k :: 0 <= k < |Periods(c)| ==> UniqueOldKeys(Periods(c)[k])
  {
    Unique1718(c);
    Unique1819(c);
    Unique1920(c);
    Unique2021(c);
    Unique2123(c);
    AllFiveUnique(Resolve(Changes1718(), c.v17, c.v18, false), Resolve(Changes1819(), c.v18, c.v19, false),
                  Resolve(Changes1920(), c.v19, c.v20, false), Resolve(Changes2021(), c.v20, c.v21, false),
                  Resolve(Changes2123(), c.v21, c.v23, true));
  }

  lemma AllFiveUnique(a: seq<Transition>, b: seq<Transition>, c: seq<Transition>, d: seq<Transition>, e: seq<Transition>)
    requires UniqueOldKeys(a) && UniqueOldKeys(b) && UniqueOldKeys(c) && UniqueOldKeys(d) && UniqueOldKeys(e)
    ensures forall k :: 0 <= k < 5 ==> UniqueOldKeys([a, b, c, d, e][k])
  {
  }

  lemma Unique1718(c: CodeLists)
    requires AllResolveOnce(Changes1718(), c.v17, c.v18)
    ensures UniqueOldKeys(Resolve(Changes1718(), c.v17, c.v18, false))
  {
    Changes1718Distinct();
    ResolvedKeysUnique(Changes1718(), c.v17, c.v18, false);
  }

  lemma Unique1819(c: CodeLists)
    requires AllResolveOnce(Changes1819(), c.v18, c.v19)
    ensures UniqueOldKeys(Resolve(Changes1819(), c.v18, c.v19, false))
  {
    Changes1819Distinct();
    ResolvedKeysUnique(Changes1819(), c.v18, c.v19, false);
  }

  lemma Unique1920(c: CodeLists)
    requires AllResolveOnce(Changes1920(), c.v19, c.v20)
    ensures UniqueOldKeys(Resolve(Changes1920(), c.v19, c.v20, false))
  {
    Changes1920Distinct();
    ResolvedKeysUnique(Changes1920(), c.v19, c.v20, false);
  }

  lemma Unique2021(c: CodeLists)
    requires AllResolveOnce(Changes2021(), c.v20, c.v21)
    ensures UniqueOldKeys(Resolve(Changes2021(), c.v20, c.v21, false))
  {
    Changes2021Distinct();
    ResolvedKeysUnique(Changes2021(), c.v20, c.v21, false);
  }

  lemma Unique2123(c: CodeLists)
    requires AllResolveOnce(Changes2123(), c.v21, c.v23)
    ensures UniqueOldKeys(Resolve(Changes2123(), c.v21, c.v23, true))
  {
    Changes2123Distinct();
    ResolvedKeysUnique(Changes2123(), c.v21, c.v23, true);
  }

  /** When the curated names resolve one to one, combo holds exactly one row
      per base row, in base order, each the base pair followed by one
      forward-filled cell per period. */
  lemma ComboOneToOne(c: CodeLists)
    requires CuratedResolve(c)
    ensures |ComboTable(c)| == |ComboBase(c)|
    ensures forall i :: 0 <= i < |ComboBase(c)| ==> FilledFrom(ComboTable(c)[i], ComboBase(c)[i], Periods(c))
  {
    PeriodsUnique(c);
    ChainUnique(ComboBase(c), Periods(c));
  }
}
