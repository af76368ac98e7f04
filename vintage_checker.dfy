/** lad_vintage_checker of main_dataset_uploader.py: compares a set of LAD
    codes (or names) under test with every vintage column of the wide mapping
    table, restricted to the districts whose 2021 code lies in the chosen
    countries, and reports per column what the vintage has that the test set
    lacks and what the test set has that the vintage lacks. */
module VintageChecker {
  import opened LadTypes
  import opened Combo
  import opened Lookup
  import GeographyCodeMatcher

  /** A row of the 2021 geography lookup: lad21cd and ctry21nm. */
  datatype CountryRow = CountryRow(lad21cd: Code, ctry21nm: string)

  /** One row of the checker's result, indexed by the column it checks. */
  datatype ColumnReport = ColumnReport(column: string, missing: set<Option<string>>, extra: set<string>)

  /** col_list: the seven code columns, or the seven name columns. */
  function ColumnNames(code: bool): (cols: seq<string>)
    ensures |cols| == 7
  {
    if code then ["lad11cd", "lad17cd", "lad18cd", "lad19cd", "lad20cd", "lad21cd", "lad23cd"]
    else ["lad11nm", "lad17nm", "lad18nm", "lad19nm", "lad20nm", "lad21nm", "lad23nm"]
  }

  /** The checked columns are the lower-cased combo header's code columns,
      or its name columns, in vintage order. */
  lemma ColumnsOfCombo(code: bool)
    ensures forall k :: 0 <= k < 7 ==>
      ColumnNames(code)[k] == GeographyCodeMatcher.LowerAll(GeographyCodeMatcher.ComboColumns)[if code then 2 * k else 2 * k + 1]
  {
    GeographyCodeMatcher.ComboHeaderNames();
  }

  /** The value a mapping row holds in the code or the name column of a
      vintage cell; None is a missing value. */
  function CellValue(c: Cell, code: bool): Option<string>
  {
    if code then c.code else c.name
  }

  /** After the left merge on lad21cd, a mapping row is kept by
      the country filter when some lookup row with its 2021 code names one
      of the countries (a row without a match has a missing ctry21nm). */
  predicate InCountries(r: Row, lookup: seq<CountryRow>, countries: set<string>)
    requires |r| == 7
  {
    exists j :: 0 <= j < |lookup| && r[5].code == Some(lookup[j].lad21cd) && lookup[j].ctry21nm in countries
  }

  /** The values column col takes over the mapping rows the country filter keeps. */
  function VintageValues(mapping: seq<Row>, lookup: seq<CountryRow>, countries: set<string>, col: nat, code: bool): set<Option<string>>
    requires WideRows(mapping) && col < 7
  {
    set i | 0 <= i < |mapping| && InCountries(mapping[i], lookup, countries) :: CellValue(mapping[i][col], code)
  }

  /** The test set, as values of a column. */
  function Lifted(test: set<string>): set<Option<string>>
  {
    set x | x in test :: Some(x)
  }

  /** The two set differences of one column: in the vintage but missing from
      the test set, and in the test set but missing from the vintage. They
      never share a value, and both are empty exactly when the two sets agree. */
  function Compare(column: string, values: set<Option<string>>, test: set<string>): (r: ColumnReport)
    ensures r.column == column
    ensures forall v :: v in r.missing <==> v in values && v !in Lifted(test)
    ensures forall x :: x in r.extra <==> x in test && Some(x) !in values
    ensures forall x :: x in r.extra ==> Some(x) !in r.missing
    ensures r.missing == {} && r.extra == {} <==> values == Lifted(test)
  {
    var missing := values - Lifted(test);
    var extra := set x | x in test && Some(x) !in values;
    assert values == Lifted(test) ==> extra == {};
    assert missing == {} && extra == {} ==> values == Lifted(test) by {
      if missing == {} && extra == {} {
        forall v | v in Lifted(test) ensures v in values {
          var x :| x in test && v == Some(x);
          assert x !in extra;
        }
        forall v | v in values ensures v in Lifted(test) {
          assert v !in missing;
        }
      }
    }
    ColumnReport(column, missing, extra)
  }

  /** What the checker reports for column col. */
  function Report(mapping: seq<Row>, lookup: seq<CountryRow>, test: set<string>, code: bool, countries: set<string>, col: nat): ColumnReport
    requires WideRows(mapping) && col < 7
  {
    Compare(ColumnNames(code)[col], VintageValues(mapping, lookup, countries, col, code), test)
  }

  /** The loop over col_list, one report per column in col_list order. */
  method CheckVintages(mapping: seq<Row>, lookup: seq<CountryRow>, test: set<string>, code: bool, countries: set<string>)
    returns (reports: seq<ColumnReport>)
    requires WideRows(mapping)
    ensures |reports| == 7
    ensures forall col :: 0 <= col < 7 ==> reports[col] == Report(mapping, lookup, test, code, countries, col)
  {
    var colList := ColumnNames(code);
    reports := [];
    var col := 0;
    while col < |colList|
      invariant col <= |colList| && |reports| == col
      invariant forall c :: 0 <= c < col ==> reports[c] == Report(mapping, lookup, test, code, countries, c)
    {
      var values := VintageValues(mapping, lookup, countries, col, code);
      var missing := values - Lifted(test);
      var extra := set x | x in test && Some(x) !in values;
      reports := reports + [ColumnReport(colList[col], missing, extra)];
      col := col + 1;
    }
  }

  /** A row the country filter drops leaves every column's values as they were. */
  lemma DroppedRowIgnored(mapping: seq<Row>, r: Row, lookup: seq<CountryRow>, countries: set<string>, col: nat, code: bool)
    requires WideRows(mapping) && |r| == 7 && col < 7
    requires !InCountries(r, lookup, countries)
    ensures WideRows(mapping + [r])
    ensures VintageValues(mapping + [r], lookup, countries, col, code) == VintageValues(mapping, lookup, countries, col, code)
  {
    var m := mapping + [r];
    assert forall i :: 0 <= i < |mapping| ==> m[i] == mapping[i];
    forall v | v in VintageValues(m, lookup, countries, col, code)
      ensures v in VintageValues(mapping, lookup, countries, col, code)
    {
      var i :| 0 <= i < |m| && InCountries(m[i], lookup, countries) && CellValue(m[i][col], code) == v;
      assert i < |mapping|;
    }
  }

  /** A row the country filter keeps adds its value in the column, and nothing else. */
  lemma KeptRowAdded(mapping: seq<Row>, r: Row, lookup: seq<CountryRow>, countries: set<string>, col: nat, code: bool)
    requires WideRows(mapping) && |r| == 7 && col < 7
    requires InCountries(r, lookup, countries)
    ensures WideRows(mapping + [r])
    ensures VintageValues(mapping + [r], lookup, countries, col, code)
         == VintageValues(mapping, lookup, countries, col, code) + {CellValue(r[col], code)}
  {
    var m := mapping + [r];
    assert forall i :: 0 <= i < |mapping| ==> m[i] == mapping[i];
    assert m[|mapping|] == r;
    forall v | v in VintageValues(m, lookup, countries, col, code)
      ensures v in VintageValues(mapping, lookup, countries, col, code) + {CellValue(r[col], code)}
    {
      var i :| 0 <= i < |m| && InCountries(m[i], lookup, countries) && CellValue(m[i][col], code) == v;
      if i < |mapping| {
        assert InCountries(mapping[i], lookup, countries);
      }
    }
  }
}
