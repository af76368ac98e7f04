/** The wide mapping table `combo` of build_lad_mappers: one row per unit
    lineage, one (code, name) cell per vintage column (LAD11, LAD17, LAD18,
    LAD19, LAD20, LAD21, LAD23). Its base holds the 2011/2017 columns; each
    later period is a left merge with that period's transition table on the
    previous vintage's (code, name), followed by a forward fill of the new
    columns from the previous vintage. */
module Combo {
  import opened LadTypes
  import opened Transitions

  /** One vintage's pair of columns in a combo row; None is a missing value. */
  datatype Cell = Cell(code: Option<Code>, name: Option<Name>)

  /** A combo row: one cell per vintage column filled so far. */
  type Row = seq<Cell>

  function UnitCell(u: Unit): Cell
  {
    Cell(Some(u.code), Some(u.name))
  }

  /** A base row whose 2011 and 2017 cells are both the unit u. */
  function PairRow(u: Unit): Row
  {
    [UnitCell(u), UnitCell(u)]
  }

  function Last(r: Row): Cell
    requires |r| > 0
  {
    r[|r| - 1]
  }

  predicate NonEmptyRows(rows: seq<Row>)
  {
    forall i :: 0 <= i < |rows| ==> |rows[i]| > 0
  }

  // ---------------------------------------------------------------------------
  // The base: persistent 2011/2017 units, Northern Ireland, 2011 -> 2017 changes
  // ---------------------------------------------------------------------------

  /** A 2011 row survives the code-keyed outer merge of 2011, 2015, 2016 and 2017
      with LAD11CD == LAD17CD and LAD11NM == LAD17NM: its code is in 2015 and
      2016, and the 2017 list has the same (code, name). */
  predicate Persists(u: Unit, v15: Vintage, v16: Vintage, v17: Vintage)
  {
    u.code in Codes(v15) && u.code in Codes(v16) && u in v17
  }

  /** `persistent`: the 2011 rows whose code and name are unchanged in 2017,
      each with identical 2011 and 2017 cells, in 2011 order. */
  function Persistent(v11: Vintage, v15: Vintage, v16: Vintage, v17: Vintage): (rows: seq<Row>)
    ensures forall i :: 0 <= i < |rows| ==> |rows[i]| == 2 && rows[i][0] == rows[i][1]
    ensures forall u :: u in v11 && Persists(u, v15, v16, v17) ==> PairRow(u) in rows
    ensures forall r :: r in rows ==> exists u :: u in v11 && Persists(u, v15, v16, v17) && r == PairRow(u)
    decreases |v11|
  {
    if v11 == [] then []
    else
      var last := v11[|v11| - 1];
      assert forall u :: u in v11 <==> u in v11[..|v11| - 1] || u == last;
      Persistent(v11[..|v11| - 1], v15, v16, v17) + (if Persists(last, v15, v16, v17) then [PairRow(last)] else [])
  }

  const NorthernIrelandCodes: seq<Code> :=
    ["N09000001", "N09000002", "N09000003", "N09000004", "N09000005",
     "N09000006", "N09000007", "N09000008", "N09000009", "N09000010"]

  const NorthernIrelandNames: seq<Name> :=
    ["Antrim and Newtownabbey", "Armagh, Banbridge and Craigavon", "Belfast",
     "Causeway Coast and Glens", "Derry and Strabane", "Fermanagh and Omagh",
     "Lisburn and Castlereagh", "Mid and East Antrim", "Mid Ulster", "Newry, Mourne and Down"]

  /** `persistent_NI`: the ten Northern Ireland districts, which first appear in
      2015, added with identical 2011 and 2017 cells. */
  function NorthernIreland(): seq<Row>
  {
    seq(10, i requires 0 <= i < 10 => PairRow(Unit(NorthernIrelandCodes[i], NorthernIrelandNames[i])))
  }

  /** A 2011 -> 2017 transition as a base row. */
  function TransitionRow(t: Transition): Row
  {
    [Cell(t.oldCode, Some(t.oldName)), Cell(t.newCode, Some(t.newName))]
  }

  function TransitionRows(ts: seq<Transition>): (rows: seq<Row>)
    ensures |rows| == |ts|
    ensures forall k :: 0 <= k < |ts| ==> rows[k] == TransitionRow(ts[k])
  {
    seq(|ts|, k requires 0 <= k < |ts| => TransitionRow(ts[k]))
  }

  /** The base of combo: the persistent rows, then the Northern Ireland rows,
      then the 2011 -> 2017 transitions. */
  function Base(v11: Vintage, v15: Vintage, v16: Vintage, v17: Vintage, t1117: seq<Transition>): (rows: seq<Row>)
    ensures forall i :: 0 <= i < |rows| ==> |rows[i]| == 2
  {
    Persistent(v11, v15, v16, v17) + NorthernIreland() + TransitionRows(t1117)
  }

  /** The base holds exactly the persistent 2011 units, the Northern Ireland
      districts and the 2011 -> 2017 transitions, each as a two-cell row. */
  lemma BaseRows(v11: Vintage, v15: Vintage, v16: Vintage, v17: Vintage, t1117: seq<Transition>)
    ensures forall u :: u in v11 && Persists(u, v15, v16, v17) ==> PairRow(u) in Base(v11, v15, v16, v17, t1117)
    ensures forall k :: 0 <= k < 10 ==>
              PairRow(Unit(NorthernIrelandCodes[k], NorthernIrelandNames[k])) in Base(v11, v15, v16, v17, t1117)
    ensures forall t :: t in t1117 ==> TransitionRow(t) in Base(v11, v15, v16, v17, t1117)
    ensures forall r :: r in Base(v11, v15, v16, v17, t1117) ==>
              || (exists u :: u in v11 && Persists(u, v15, v16, v17) && r == PairRow(u))
              || (exists k :: 0 <= k < 10 && r == PairRow(Unit(NorthernIrelandCodes[k], NorthernIrelandNames[k])))
              || (exists t :: t in t1117 && r == TransitionRow(t))
  {
    var p := Persistent(v11, v15, v16, v17);
    var ni := NorthernIreland();
    var tr := TransitionRows(t1117);
    assert Base(v11, v15, v16, v17, t1117) == p + ni + tr;
    forall k | 0 <= k < 10
      ensures PairRow(Unit(NorthernIrelandCodes[k], NorthernIrelandNames[k])) in Base(v11, v15, v16, v17, t1117)
    {
      assert ni[k] in ni;
    }
    forall t | t in t1117 ensures TransitionRow(t) in Base(v11, v15, v16, v17, t1117) {
      var k :| 0 <= k < |t1117| && t1117[k] == t;
      assert tr[k] in tr;
    }
    forall r | r in Base(v11, v15, v16, v17, t1117)
      ensures || (exists u :: u in v11 && Persists(u, v15, v16, v17) && r == PairRow(u))
              || (exists k :: 0 <= k < 10 && r == PairRow(Unit(NorthernIrelandCodes[k], NorthernIrelandNames[k])))
              || (exists t :: t in t1117 && r == TransitionRow(t))
    {
      if r in ni {
        var k :| 0 <= k < 10 && ni[k] == r;
      } else if r in tr {
        var k :| 0 <= k < |tr| && tr[k] == r;
        assert t1117[k] in t1117;
      }
    }
  }

  // ---------------------------------------------------------------------------
  // One period: left merge on the previous vintage, then forward fill
  // ---------------------------------------------------------------------------

  /** The merge keys agree: the transition's old (code, name) equals the cell;
      missing codes match each other, as NaN keys do in a pandas merge. */
  predicate Matches(t: Transition, c: Cell)
  {
    c.code == t.oldCode && c.name == Some(t.oldName)
  }

  predicate NoMatch(ts: seq<Transition>, c: Cell)
  {
    forall t :: t in ts ==> !Matches(t, c)
  }

  /** No two rows of a transition table share an old (code, name). */
  predicate UniqueOldKeys(ts: seq<Transition>)
  {
    forall i, j :: 0 <= i < j < |ts| ==> !(ts[i].oldCode == ts[j].oldCode && ts[i].oldName == ts[j].oldName)
  }

  /** The transitions whose old key is the cell, in table order. */
  function MatchesOf(ts: seq<Transition>, c: Cell): (ms: seq<Transition>)
    ensures forall t :: t in ms <==> t in ts && Matches(t, c)
    ensures NoMatch(ts, c) ==> ms == []
    decreases |ts|
  {
    if ts == [] then []
    else
      var last := ts[|ts| - 1];
      assert forall t :: t in ts <==> t in ts[..|ts| - 1] || t == last;
      MatchesOf(ts[..|ts| - 1], c) + (if Matches(last, c) then [last] else [])
  }

  /** The new vintage's columns the merge attaches from transition t. */
  function Attached(t: Transition): Cell
  {
    Cell(t.newCode, Some(t.newName))
  }

  /** The merged rows for one combo row: one per matching transition, or the
      row with missing new columns when nothing matches. */
  function JoinRow(r: Row, ts: seq<Transition>): (out: seq<Row>)
    requires |r| > 0
    ensures |out| > 0
    ensures forall k :: 0 <= k < |out| ==> |out[k]| == |r| + 1
  {
    var ms := MatchesOf(ts, Last(r));
    if ms == [] then [r + [Cell(None, None)]]
    else seq(|ms|, k requires 0 <= k < |ms| => r + [Attached(ms[k])])
  }

  /** The left merge of combo with a period's transition table: the common columns are the previous
      vintage's code and name, the cells the last column of each row holds. */
  function LeftJoin(rows: seq<Row>, ts: seq<Transition>): (out: seq<Row>)
    requires NonEmptyRows(rows)
    ensures forall k :: 0 <= k < |out| ==> |out[k]| >= 2
    decreases |rows|
  {
    if rows == [] then []
    else
      var n := |rows| - 1;
      LeftJoin(rows[..n], ts) + JoinRow(rows[n], ts)
  }

  /** The forward fill of the two new columns: each new column keeps its merged value when
      present, otherwise takes the previous vintage's value. */
  function FillCell(prev: Cell, cur: Cell): Cell
  {
    Cell(if cur.code.Some? then cur.code else prev.code,
         if cur.name.Some? then cur.name else prev.name)
  }

  function FillLast(r: Row): Row
    requires |r| >= 2
  {
    r[..|r| - 1] + [FillCell(r[|r| - 2], Last(r))]
  }

  function ForwardFill(rows: seq<Row>): (out: seq<Row>)
    requires forall i :: 0 <= i < |rows| ==> |rows[i]| >= 2
    ensures |out| == |rows|
    ensures forall i :: 0 <= i < |rows| ==> out[i] == FillLast(rows[i])
    ensures forall k :: 0 <= k < |out| ==> |out[k]| >= 2
  {
    seq(|rows|, i requires 0 <= i < |rows| => FillLast(rows[i]))
  }

  /** One period of the chain: merge, then forward fill. */
  function Step(rows: seq<Row>, ts: seq<Transition>): (out: seq<Row>)
    requires NonEmptyRows(rows)
    ensures NonEmptyRows(out)
  {
    ForwardFill(LeftJoin(rows, ts))
  }

  /** The combo rows after the given periods, in order. */
  function Chain(rows: seq<Row>, steps: seq<seq<Transition>>): (out: seq<Row>)
    requires NonEmptyRows(rows)
    ensures NonEmptyRows(out)
    decreases |steps|
  {
    if steps == [] then rows else Step(Chain(rows, steps[..|steps| - 1]), steps[|steps| - 1])
  }

  /** The cell a matching transition leaves in the new column after the fill:
      its new code (or the previous code when that did not resolve) and its new name. */
  function Filled(prev: Cell, t: Transition): Cell
  {
    Cell(if t.newCode.Some? then t.newCode else prev.code, Some(t.newName))
  }

  /** The forward-fill invariant for one new cell x after the previous cell prev:
      if no transition of the period carries prev forward, x is prev unchanged;
      otherwise x is what a matching transition gives. */
  predicate FilledCell(prev: Cell, x: Cell, ts: seq<Transition>)
  {
    if NoMatch(ts, prev) then x == prev
    else exists t :: t in ts && Matches(t, prev) && x == Filled(prev, t)
  }

  /** o is the combo row r after one period of ts. */
  predicate Extends(o: Row, r: Row, ts: seq<Transition>)
  {
    && |r| > 0 && |o| == |r| + 1
    && o == r + [o[|r|]]
    && FilledCell(Last(r), o[|r|], ts)
  }

  /** r is the base row b extended by one forward-filled cell per period. */
  predicate FilledFrom(r: Row, b: Row, steps: seq<seq<Transition>>)
  {
    && |b| > 0
    && |r| == |b| + |steps|
    && r[..|b|] == b
    && forall k :: 0 <= k < |steps| ==> FilledCell(r[|b| + k - 1], r[|b| + k], steps[k])
  }

  /** The chain built by merging combo with each period's table and filling
      the two new columns, for each of the five periods 2017 -> 2018 ... 2021 -> 2023. */
  method BuildCombo(base: seq<Row>, t1718: seq<Transition>, t1819: seq<Transition>, t1920: seq<Transition>,
                    t2021: seq<Transition>, t2123: seq<Transition>) returns (combo: seq<Row>)
    requires NonEmptyRows(base)
    ensures combo == Chain(base, [t1718, t1819, t1920, t2021, t2123])
    ensures forall b :: b in base ==> exists r :: r in combo && FilledFrom(r, b, [t1718, t1819, t1920, t2021, t2123])
    ensures forall r :: r in combo ==> exists b :: b in base && FilledFrom(r, b, [t1718, t1819, t1920, t2021, t2123])
  {
    ghost var done: seq<seq<Transition>> := [];
    combo := base;
    assert combo == Chain(base, done);
    ghost var prev := combo;
    combo := LeftJoin(combo, t1718);
    combo := ForwardFill(combo);
    ChainStep(base, done, t1718, prev, combo);
    done := done + [t1718];
    prev := combo;
    combo := LeftJoin(combo, t1819);
    combo := ForwardFill(combo);
    ChainStep(base, done, t1819, prev, combo);
    done := done + [t1819];
    prev := combo;
    combo := LeftJoin(combo, t1920);
    combo := ForwardFill(combo);
    ChainStep(base, done, t1920, prev, combo);
    done := done + [t1920];
    prev := combo;
    combo := LeftJoin(combo, t2021);
    combo := ForwardFill(combo);
    ChainStep(base, done, t2021, prev, combo);
    done := done + [t2021];
    prev := combo;
    combo := LeftJoin(combo, t2123);
    combo := ForwardFill(combo);
    ChainStep(base, done, t2123, prev, combo);
    done := done + [t2123];
    FivePeriods(t1718, t1819, t1920, t2021, t2123);
    ChainKeepsRows(base, done);
    ChainRowsFromBase(base, done);
  }

  // ---------------------------------------------------------------------------
  // Lemmas
  // ---------------------------------------------------------------------------

  /** One more period of the chain is one more step. */
  lemma ChainStep(base: seq<Row>, done: seq<seq<Transition>>, x: seq<Transition>, prev: seq<Row>, next: seq<Row>)
    requires NonEmptyRows(base)
    requires prev == Chain(base, done)
    requires next == Step(prev, x)
    ensures next == Chain(base, done + [x])
  {
    ChainSnoc(base, done, x);
  }

  lemma FivePeriods<T>(a: T, b: T, c: T, d: T, e: T)
    ensures [] + [a] + [b] + [c] + [d] + [e] == [a, b, c, d, e]
  {
  }

  lemma ChainSnoc(base: seq<Row>, pre: seq<seq<Transition>>, x: seq<Transition>)
    requires NonEmptyRows(base)
    ensures Chain(base, pre + [x]) == Step(Chain(base, pre), x)
  {
    assert (pre + [x])[..|pre|] == pre;
  }

  /** The cell the left merge attaches: that of a matching transition, or
      missing values when none matches. */
  predicate JoinedCell(c: Cell, x: Cell, ts: seq<Transition>)
  {
    if NoMatch(ts, c) then x == Cell(None, None)
    else exists t :: t in ts && Matches(t, c) && x == Attached(t)
  }

  /** o is a row of the left merge produced from the combo row r. */
  predicate JoinedFrom(o: Row, r: Row, ts: seq<Transition>)
  {
    && |r| > 0 && |o| == |r| + 1
    && o == r + [o[|r|]]
    && JoinedCell(Last(r), o[|r|], ts)
  }

  lemma JoinRowMembers(r: Row, ts: seq<Transition>)
    requires |r| > 0
    ensures forall o :: o in JoinRow(r, ts) <==> JoinedFrom(o, r, ts)
  {
    var ms := MatchesOf(ts, Last(r));
    if ms != [] {
      assert ms[0] in ts && Matches(ms[0], Last(r));
      JoinRowSome(r, ts, ms);
    }
  }

  lemma JoinRowSome(r: Row, ts: seq<Transition>, ms: seq<Transition>)
    requires |r| > 0 && ms == MatchesOf(ts, Last(r)) && ms != []
    requires !NoMatch(ts, Last(r))
    ensures forall o :: o in JoinRow(r, ts) <==> JoinedFrom(o, r, ts)
  {
    var out := JoinRow(r, ts);
    assert out == seq(|ms|, k requires 0 <= k < |ms| => r + [Attached(ms[k])]);
    forall o | JoinedFrom(o, r, ts) ensures o in out {
      var t :| t in ts && Matches(t, Last(r)) && o[|r|] == Attached(t);
      var k :| 0 <= k < |ms| && ms[k] == t;
      assert out[k] == o;
    }
    forall o | o in out ensures JoinedFrom(o, r, ts) {
      var k :| 0 <= k < |ms| && out[k] == o;
      assert ms[k] in ts && Matches(ms[k], Last(r));
      assert o == r + [Attached(ms[k])];
    }
  }

  lemma LeftJoinSnoc(rows: seq<Row>, ts: seq<Transition>)
    requires NonEmptyRows(rows) && rows != []
    ensures NonEmptyRows(rows[..|rows| - 1])
    ensures LeftJoin(rows, ts) == LeftJoin(rows[..|rows| - 1], ts) + JoinRow(rows[|rows| - 1], ts)
  {
  }

  lemma {:induction false} LeftJoinMembers(rows: seq<Row>, ts: seq<Transition>)
    requires NonEmptyRows(rows)
    ensures forall o :: o in LeftJoin(rows, ts) <==> exists i :: 0 <= i < |rows| && JoinedFrom(o, rows[i], ts)
    decreases |rows|
  {
    if rows != [] {
      var n := |rows| - 1;
      var pre := rows[..n];
      assert forall i :: 0 <= i < n ==> pre[i] == rows[i];
      LeftJoinMembers(pre, ts);
      JoinRowMembers(rows[n], ts);
      LeftJoinSnoc(rows, ts);
      JoinedAppend(LeftJoin(pre, ts), JoinRow(rows[n], ts), rows, ts);
    }
  }

  lemma JoinedAppend(prev: seq<Row>, last: seq<Row>, rows: seq<Row>, ts: seq<Transition>)
    requires |rows| > 0
    requires forall o :: o in prev <==> exists i :: 0 <= i < |rows| - 1 && JoinedFrom(o, rows[i], ts)
    requires forall o :: o in last <==> JoinedFrom(o, rows[|rows| - 1], ts)
    ensures forall o :: o in prev + last <==> exists i :: 0 <= i < |rows| && JoinedFrom(o, rows[i], ts)
  {
  }

  /** The forward fill turns a merged row into the extended row. */
  lemma FillJoined(o: Row, r: Row, ts: seq<Transition>)
    requires JoinedFrom(o, r, ts)
    ensures Extends(FillLast(o), r, ts)
  {
    assert o[..|o| - 1] == r;
    assert o[|o| - 2] == Last(r);
  }

  /** Every extended row is the fill of some merged row. */
  lemma UnfillExtended(o: Row, r: Row, ts: seq<Transition>) returns (j: Row)
    requires Extends(o, r, ts)
    ensures JoinedFrom(j, r, ts) && FillLast(j) == o
  {
    if NoMatch(ts, Last(r)) {
      j := r + [Cell(None, None)];
    } else {
      var t :| t in ts && Matches(t, Last(r)) && o[|r|] == Filled(Last(r), t);
      j := r + [Attached(t)];
    }
    assert j[..|j| - 1] == r;
    assert j[|j| - 2] == Last(r);
  }

  /** The rows after one period are exactly the extensions of the previous rows. */
  lemma StepMembers(rows: seq<Row>, ts: seq<Transition>)
    requires NonEmptyRows(rows)
    ensures forall o :: o in Step(rows, ts) <==> exists i :: 0 <= i < |rows| && Extends(o, rows[i], ts)
  {
    LeftJoinMembers(rows, ts);
    FillMembers(LeftJoin(rows, ts), rows, ts);
  }

  lemma FillMembers(joined: seq<Row>, rows: seq<Row>, ts: seq<Transition>)
    requires forall o :: o in joined <==> exists i :: 0 <= i < |rows| && JoinedFrom(o, rows[i], ts)
    ensures forall m :: 0 <= m < |joined| ==> |joined[m]| >= 2
    ensures forall o :: o in ForwardFill(joined) <==> exists i :: 0 <= i < |rows| && Extends(o, rows[i], ts)
  {
    FillSound(joined, rows, ts);
    FillComplete(joined, rows, ts);
  }

  lemma FillSound(joined: seq<Row>, rows: seq<Row>, ts: seq<Transition>)
    requires forall o :: o in joined ==> exists i :: 0 <= i < |rows| && JoinedFrom(o, rows[i], ts)
    ensures forall m :: 0 <= m < |joined| ==> |joined[m]| >= 2
    ensures forall o :: o in ForwardFill(joined) ==> exists i :: 0 <= i < |rows| && Extends(o, rows[i], ts)
  {
    assert forall m :: 0 <= m < |joined| ==> |joined[m]| >= 2 by {
      forall m | 0 <= m < |joined| ensures |joined[m]| >= 2 { assert joined[m] in joined; }
    }
    var out := ForwardFill(joined);
    forall o | o in out ensures exists i :: 0 <= i < |rows| && Extends(o, rows[i], ts) {
      var m :| 0 <= m < |out| && out[m] == o;
      assert joined[m] in joined;
      var i :| 0 <= i < |rows| && JoinedFrom(joined[m], rows[i], ts);
      FillJoined(joined[m], rows[i], ts);
    }
  }

  lemma FillComplete(joined: seq<Row>, rows: seq<Row>, ts: seq<Transition>)
    requires forall m :: 0 <= m < |joined| ==> |joined[m]| >= 2
    requires forall i, o :: 0 <= i < |rows| && JoinedFrom(o, rows[i], ts) ==> o in joined
    ensures forall o :: (exists i :: 0 <= i < |rows| && Extends(o, rows[i], ts)) ==> o in ForwardFill(joined)
  {
    var out := ForwardFill(joined);
    forall o | exists i :: 0 <= i < |rows| && Extends(o, rows[i], ts) ensures o in out {
      var i :| 0 <= i < |rows| && Extends(o, rows[i], ts);
      var j := UnfillExtended(o, rows[i], ts);
      assert j in joined;
      var m :| 0 <= m < |joined| && joined[m] == j;
      assert out[m] == o;
    }
  }

  /** The left merge never drops a row: each row is carried into the next period. */
  lemma StepKeepsRows(rows: seq<Row>, ts: seq<Transition>)
    requires NonEmptyRows(rows)
    ensures forall i :: 0 <= i < |rows| ==> exists o :: o in Step(rows, ts) && Extends(o, rows[i], ts)
  {
    var out := Step(rows, ts);
    StepMembers(rows, ts);
    forall i | 0 <= i < |rows| ensures exists o :: o in out && Extends(o, rows[i], ts) {
      var o := ExtendOne(rows[i], ts);
      assert o in out;
    }
  }

  /** Every row has an extension in every period. */
  lemma ExtendOne(r: Row, ts: seq<Transition>) returns (o: Row)
    requires |r| > 0
    ensures Extends(o, r, ts)
  {
    if NoMatch(ts, Last(r)) {
      o := r + [Last(r)];
    } else {
      var t :| t in ts && Matches(t, Last(r));
      o := r + [Filled(Last(r), t)];
    }
  }

  lemma {:induction false} AtMostOneMatch(ts: seq<Transition>, c: Cell)
    requires UniqueOldKeys(ts)
    ensures |MatchesOf(ts, c)| <= 1
    decreases |ts|
  {
    if ts != [] {
      var n := |ts| - 1;
      var pre := ts[..n];
      assert forall i :: 0 <= i < n ==> pre[i] == ts[i];
      AtMostOneMatch(pre, c);
      MatchesOfSnoc(ts, c);
      if Matches(ts[n], c) {
        forall t | t in pre ensures !Matches(t, c) {
          var i :| 0 <= i < n && pre[i] == t;
        }
      }
    }
  }

  lemma MatchesOfSnoc(ts: seq<Transition>, c: Cell)
    requires ts != []
    ensures MatchesOf(ts, c) == MatchesOf(ts[..|ts| - 1], c) + (if Matches(ts[|ts| - 1], c) then [ts[|ts| - 1]] else [])
  {
  }

  /** With unique old keys, the merge gives exactly one row for each row, in order. */
  lemma {:induction false} LeftJoinSingle(rows: seq<Row>, ts: seq<Transition>)
    requires NonEmptyRows(rows)
    requires UniqueOldKeys(ts)
    ensures |LeftJoin(rows, ts)| == |rows|
    ensures forall i :: 0 <= i < |rows| ==> JoinedFrom(LeftJoin(rows, ts)[i], rows[i], ts)
    decreases |rows|
  {
    if rows != [] {
      var n := |rows| - 1;
      var pre := rows[..n];
      assert forall i :: 0 <= i < n ==> pre[i] == rows[i];
      LeftJoinSingle(pre, ts);
      JoinRowSingle(rows[n], ts);
      LeftJoinSnoc(rows, ts);
      SingleAppend(LeftJoin(pre, ts), JoinRow(rows[n], ts), rows, ts);
    }
  }

  lemma JoinRowSingle(r: Row, ts: seq<Transition>)
    requires |r| > 0
    requires UniqueOldKeys(ts)
    ensures |JoinRow(r, ts)| == 1 && JoinedFrom(JoinRow(r, ts)[0], r, ts)
  {
    AtMostOneMatch(ts, Last(r));
    JoinRowMembers(r, ts);
    var last := JoinRow(r, ts);
    assert last[0] in last;
  }

  lemma SingleAppend(prev: seq<Row>, last: seq<Row>, rows: seq<Row>, ts: seq<Transition>)
    requires |rows| > 0
    requires |prev| == |rows| - 1 && forall i :: 0 <= i < |rows| - 1 ==> JoinedFrom(prev[i], rows[i], ts)
    requires |last| == 1 && JoinedFrom(last[0], rows[|rows| - 1], ts)
    ensures |prev + last| == |rows|
    ensures forall i :: 0 <= i < |rows| ==> JoinedFrom((prev + last)[i], rows[i], ts)
  {
    forall i | 0 <= i < |rows| ensures JoinedFrom((prev + last)[i], rows[i], ts) {
      if i < |prev| {
        assert (prev + last)[i] == prev[i];
      } else {
        assert (prev + last)[i] == last[0];
      }
    }
  }

  /** With unique old keys in the transition table, each row is extended in
      place: same number of rows, same order. */
  lemma StepUnique(rows: seq<Row>, ts: seq<Transition>)
    requires NonEmptyRows(rows)
    requires UniqueOldKeys(ts)
    ensures |Step(rows, ts)| == |rows|
    ensures forall i :: 0 <= i < |rows| ==> Extends(Step(rows, ts)[i], rows[i], ts)
  {
    LeftJoinSingle(rows, ts);
    var joined := LeftJoin(rows, ts);
    forall i | 0 <= i < |rows| ensures Extends(Step(rows, ts)[i], rows[i], ts) {
      FillJoined(joined[i], rows[i], ts);
    }
  }

  /** One more forward-filled cell extends the lineage of a base row. */
  lemma ExtendFilledFrom(p: Row, o: Row, b: Row, steps: seq<seq<Transition>>)
    requires |steps| > 0
    requires FilledFrom(p, b, steps[..|steps| - 1])
    requires Extends(o, p, steps[|steps| - 1])
    ensures FilledFrom(o, b, steps)
  {
    var n := |steps| - 1;
    assert o[..|b|] == p[..|b|];
    forall k | 0 <= k < |steps| ensures FilledCell(o[|b| + k - 1], o[|b| + k], steps[k]) {
      if k < n {
        assert steps[..n][k] == steps[k];
        assert o[|b| + k - 1] == p[|b| + k - 1] && o[|b| + k] == p[|b| + k];
      }
    }
  }

  /** Every base row is carried through every period: no row is ever dropped. */
  lemma {:induction false} ChainKeepsRows(base: seq<Row>, steps: seq<seq<Transition>>)
    requires NonEmptyRows(base)
    ensures forall b :: b in base ==> exists r :: r in Chain(base, steps) && FilledFrom(r, b, steps)
    decreases |steps|
  {
    if steps == [] {
      forall b | b in base ensures FilledFrom(b, b, steps) {
        assert b[..|b|] == b;
      }
    } else {
      var n := |steps| - 1;
      var prev := Chain(base, steps[..n]);
      ChainKeepsRows(base, steps[..n]);
      StepKeepsRows(prev, steps[n]);
      forall b | b in base ensures exists r :: r in Chain(base, steps) && FilledFrom(r, b, steps) {
        var p :| p in prev && FilledFrom(p, b, steps[..n]);
        var i :| 0 <= i < |prev| && prev[i] == p;
        var o :| o in Step(prev, steps[n]) && Extends(o, prev[i], steps[n]);
        ExtendFilledFrom(p, o, b, steps);
      }
    }
  }

  /** Every combo row is a base row extended by one forward-filled cell per period. */
  lemma {:induction false} ChainRowsFromBase(base: seq<Row>, steps: seq<seq<Transition>>)
    requires NonEmptyRows(base)
    ensures forall r :: r in Chain(base, steps) ==> exists b :: b in base && FilledFrom(r, b, steps)
    decreases |steps|
  {
    if steps == [] {
      forall r | r in base ensures FilledFrom(r, r, steps) {
        assert r[..|r|] == r;
      }
    } else {
      var n := |steps| - 1;
      var prev := Chain(base, steps[..n]);
      ChainRowsFromBase(base, steps[..n]);
      StepMembers(prev, steps[n]);
      forall o | o in Chain(base, steps) ensures exists b :: b in base && FilledFrom(o, b, steps) {
        var i :| 0 <= i < |prev| && Extends(o, prev[i], steps[n]);
        assert prev[i] in prev;
        var b :| b in base && FilledFrom(prev[i], b, steps[..n]);
        ExtendFilledFrom(prev[i], o, b, steps);
      }
    }
  }

  /** Each period adds exactly one column to every row. */
  lemma {:induction false} ChainWidth(base: seq<Row>, steps: seq<seq<Transition>>, w: nat)
    requires NonEmptyRows(base)
    requires forall i :: 0 <= i < |base| ==> |base[i]| == w
    ensures forall i :: 0 <= i < |Chain(base, steps)| ==> |Chain(base, steps)[i]| == w + |steps|
    decreases |steps|
  {
    if steps != [] {
      var n := |steps| - 1;
      var prev := Chain(base, steps[..n]);
      var out := Chain(base, steps);
      ChainWidth(base, steps[..n], w);
      StepMembers(prev, steps[n]);
      forall i | 0 <= i < |out| ensures |out[i]| == w + |steps| {
        assert out[i] in Step(prev, steps[n]);
        var j :| 0 <= j < |prev| && Extends(out[i], prev[j], steps[n]);
      }
    }
  }

  /** With unique old keys in every period's table, the chain keeps the base's
      rows one for one, in order, each forward-filled through every period. */
  lemma {:induction false} ChainUnique(base: seq<Row>, steps: seq<seq<Transition>>)
    requires NonEmptyRows(base)
    requires forall k :: 0 <= k < |steps| ==> UniqueOldKeys(steps[k])
    ensures |Chain(base, steps)| == |base|
    ensures forall i :: 0 <= i < |base| ==> FilledFrom(Chain(base, steps)[i], base[i], steps)
    decreases |steps|
  {
    if steps == [] {
      forall i | 0 <= i < |base| ensures FilledFrom(base[i], base[i], steps) {
        assert base[i] in base;
        assert base[i][..|base[i]|] == base[i];
      }
    } else {
      var n := |steps| - 1;
      var prev := Chain(base, steps[..n]);
      ChainUnique(base, steps[..n]);
      StepUnique(prev, steps[n]);
      forall i | 0 <= i < |base| ensures FilledFrom(Chain(base, steps)[i], base[i], steps) {
        ExtendFilledFrom(prev[i], Chain(base, steps)[i], base[i], steps);
      }
    }
  }

  /** A transition table resolved one-to-one from curated pairs with distinct old
      names has unique old keys, so its merge neither drops nor duplicates rows. */
  lemma ResolvedKeysUnique(pairs: seq<NamePair>, oldV: Vintage, newV: Vintage, oldFirst: bool)
    requires forall k :: 0 <= k < |pairs| ==> ResolvesOnce(pairs[k], oldV, newV)
    requires DistinctOldNames(pairs)
    ensures UniqueOldKeys(Resolve(pairs, oldV, newV, oldFirst))
  {
    ResolveExact(pairs, oldV, newV, oldFirst);
  }

  // ---------------------------------------------------------------------------
  // Rows with no transition, and two worked examples over three vintages
  // ---------------------------------------------------------------------------

  /** A cell no period's table carries forward is repeated unchanged through
      every later vintage column. */
  lemma {:induction false} CarriedUnchanged(r: Row, b: Row, steps: seq<seq<Transition>>, k: nat)
    requires FilledFrom(r, b, steps)
    requires forall j :: 0 <= j < |steps| ==> NoMatch(steps[j], Last(b))
    requires k <= |steps|
    ensures forall j :: |b| - 1 <= j < |b| + k ==> r[j] == Last(b)
    decreases k
  {
    if k == 0 {
      assert r[..|b|][|b| - 1] == r[|b| - 1];
    } else {
      CarriedUnchanged(r, b, steps, k - 1);
      assert FilledCell(r[|b| + k - 2], r[|b| + k - 1], steps[k - 1]);
    }
  }

  /** The row of a base row that no period's table carries forward is the
      base row followed by copies of its last cell, one per period. */
  lemma RowUnchanged(r: Row, b: Row, steps: seq<seq<Transition>>)
    requires FilledFrom(r, b, steps)
    requires forall j :: 0 <= j < |steps| ==> NoMatch(steps[j], Last(b))
    ensures r == b + seq(|steps|, _ => Last(b))
  {
    CarriedUnchanged(r, b, steps, |steps|);
    assert r[..|b|] == b;
  }

  /** A row whose cell every matching transition of the first period turns
      into w, with nothing to match in the second period. */
  lemma MergedRow(r: Row, a: Cell, ts: seq<Transition>, m: nat, w: Cell)
    requires FilledFrom(r, [a], [ts, []])
    requires m < |ts| && Matches(ts[m], a)
    requires forall k :: 0 <= k < |ts| ==> ts[k].newCode == w.code && Some(ts[k].newName) == w.name
    requires w.code.Some?
    ensures r == [a, w, w]
  {
    var steps: seq<seq<Transition>> := [ts, []];
    assert ts[m] in ts;
    assert r[..1] == [a];
    assert r[0] == a;
    assert FilledCell(r[0], r[1], steps[0]);
    assert FilledCell(r[1], r[2], steps[1]);
  }

  lemma MergedRows(out: seq<Row>, a: Cell, b: Cell, ts: seq<Transition>, w: Cell)
    requires |out| == 2 && FilledFrom(out[0], [a], [ts, []]) && FilledFrom(out[1], [b], [ts, []])
    requires |ts| == 2 && Matches(ts[0], a) && Matches(ts[1], b)
    requires forall k :: 0 <= k < |ts| ==> ts[k].newCode == w.code && Some(ts[k].newName) == w.name
    requires w.code.Some?
    ensures out == [[a, w, w], [b, w, w]]
  {
    MergedRow(out[0], a, ts, 0, w);
    MergedRow(out[1], b, ts, 1, w);
  }

  /** Forest Heath (code fh) and St Edmundsbury (code se) both become West
      Suffolk (code ws) in the first period, and nothing changes in the
      second: each district keeps its own row, and both rows carry the same
      West Suffolk cell through the last two vintages. */
  lemma MergedDistrictsExample(fh: Code, se: Code, ws: Code)
    ensures var a := Cell(Some(fh), Some("Forest Heath"));
            var b := Cell(Some(se), Some("St Edmundsbury"));
            var w := Cell(Some(ws), Some("West Suffolk"));
            var ts := [Transition(Some(fh), "Forest Heath", Some(ws), "West Suffolk"),
                       Transition(Some(se), "St Edmundsbury", Some(ws), "West Suffolk")];
            Chain([[a], [b]], [ts, []]) == [[a, w, w], [b, w, w]]
  {
    var a := Cell(Some(fh), Some("Forest Heath"));
    var b := Cell(Some(se), Some("St Edmundsbury"));
    var w := Cell(Some(ws), Some("West Suffolk"));
    var ts := [Transition(Some(fh), "Forest Heath", Some(ws), "West Suffolk"),
               Transition(Some(se), "St Edmundsbury", Some(ws), "West Suffolk")];
    var rows := [[a], [b]];
    var steps: seq<seq<Transition>> := [ts, []];
    assert UniqueOldKeys(ts);
    ChainUnique(rows, steps);
    MergedRows(Chain(rows, steps), a, b, ts, w);
  }

  /** A district (c, n) with no transition in either period appears as one
      row with the same (code, name) in all three vintage columns. */
  lemma UnchangedDistrictExample(c: Code, n: Name)
    ensures var u := Cell(Some(c), Some(n));
            Chain([[u]], [[], []]) == [[u, u, u]]
  {
    var u := Cell(Some(c), Some(n));
    var steps: seq<seq<Transition>> := [[], []];
    ChainUnique([[u]], steps);
    RowUnchanged(Chain([[u]], steps)[0], [u], steps);
    assert [u] + seq(|steps|, _ => u) == [u, u, u];
  }
}
