/** The curated transition tables of build_lad_mappers: for each boundary
    period an old-name list paired with a new-name list, and the two left
    merges that attach to every name the code(s) it has in its vintage. */
module Transitions {
  import opened LadTypes

  /** One curated row before resolution: LADxxNM -> LADyyNM. */
  datatype NamePair = NamePair(oldName: Name, newName: Name)

  /** One resolved row: LADxxCD, LADxxNM, LADyyCD, LADyyNM. A code is None when
      the left merge found no row of that vintage with the name. */
  datatype Transition = Transition(oldCode: Option<Code>, oldName: Name, newCode: Option<Code>, newName: Name)

  /** n copies of s. */
  function Repeat(s: string, n: nat): (r: seq<string>)
    ensures |r| == n
    ensures forall i :: 0 <= i < n ==> r[i] == s
  {
    seq(n, _ => s)
  }

  /** The table built from two name lists of equal length: the k-th old name
      paired with the k-th new name. */
  function Pairs(olds: seq<Name>, news: seq<Name>): (t: seq<NamePair>)
    requires |olds| == |news|
    ensures |t| == |olds|
    ensures forall k :: 0 <= k < |t| ==> t[k].oldName == olds[k] && t[k].newName == news[k]
  {
    seq(|olds|, k requires 0 <= k < |olds| => NamePair(olds[k], news[k]))
  }

  // ---------------------------------------------------------------------------
  // The curated tables, one per boundary period
  // ---------------------------------------------------------------------------

  /** 2021 -> 2023: seventeen districts merged into four successors (3/3/7/4). */
  function Changes2123(): seq<NamePair>
  {
    Pairs(OldNames2123(), Repeat("Cumberland", 3) + Repeat("Westmorland and Furness", 3)
                          + Repeat("North Yorkshire", 7) + Repeat("Somerset", 4))
  }

  function OldNames2123(): seq<Name>
  {
    ["Allerdale", "Carlisle", "Copeland"] + ["Barrow-in-Furness", "Eden", "South Lakeland"]
    + ["Craven", "Hambleton", "Harrogate", "Richmondshire", "Ryedale", "Scarborough", "Selby"]
    + ["Mendip", "Sedgemoor", "Somerset West and Taunton", "South Somerset"]
  }

  /** 2020 -> 2021: Northamptonshire's seven districts into two unitaries (4/3). */
  function Changes2021(): seq<NamePair>
  {
    Pairs(["Corby", "East Northamptonshire", "Kettering", "Wellingborough"]
          + ["Daventry", "Northampton", "South Northamptonshire"],
          Repeat("North Northamptonshire", 4) + Repeat("West Northamptonshire", 3))
  }

  /** 2019 -> 2020: four Buckinghamshire districts into one unitary. */
  function Changes1920(): seq<NamePair>
  {
    Pairs(["Aylesbury Vale", "Chiltern", "South Bucks", "Wycombe"], Repeat("Buckinghamshire", 4))
  }

  /** 2018 -> 2019: Dorset, Somerset and Suffolk mergers (3/5/2/2/2), plus two
      Scottish code-only changes that map a name to itself. */
  function Changes1819(): seq<NamePair>
  {
    Pairs(OldNames1819(),
          Repeat("Bournemouth, Christchurch and Poole", 3) + Repeat("Dorset", 5)
          + Repeat("Somerset West and Taunton", 2) + Repeat("West Suffolk", 2)
          + Repeat("East Suffolk", 2) + ["Glasgow City", "North Lanarkshire"])
  }

  function OldNames1819(): seq<Name>
  {
    ["Bournemouth", "Poole", "Christchurch"]
    + ["East Dorset", "North Dorset", "Purbeck", "West Dorset", "Weymouth and Portland"]
    + ["Taunton Deane", "West Somerset"] + ["Forest Heath", "St Edmundsbury"]
    + ["Suffolk Coastal", "Waveney"] + ["Glasgow City", "North Lanarkshire"]
  }

  /** 2017 -> 2018: one rename (Shepway) and two code-only changes. */
  function Changes1718(): seq<NamePair>
  {
    Pairs(["Shepway", "Fife", "Perth and Kinross"], ["Folkestone and Hythe", "Fife", "Perth and Kinross"])
  }

  /** 2011 -> 2017: six spelling changes and six code-only changes. */
  function Changes1117(): seq<NamePair>
  {
    Pairs(["Dumfries & Galloway", "Eilean Siar", "Perth & Kinross", "Argyll & Bute", "Edinburgh, City of", "The Vale of Glamorgan"]
          + ["Northumberland", "East Hertfordshire", "St Albans", "Stevenage", "Welwyn Hatfield", "Gateshead"],
          ["Dumfries and Galloway", "Na h-Eileanan Siar", "Perth and Kinross", "Argyll and Bute", "City of Edinburgh", "Vale of Glamorgan"]
          + ["Northumberland", "East Hertfordshire", "St Albans", "Stevenage", "Welwyn Hatfield", "Gateshead"])
  }

  // ---------------------------------------------------------------------------
  // Resolution of names to codes by left merges
  // ---------------------------------------------------------------------------

  /** The codes of the rows of v named n, in file order. */
  function CodesNamed(v: Vintage, n: Name): (r: seq<Code>)
    ensures forall c :: c in r <==> Unit(c, n) in v
    ensures (forall u :: u in v ==> u.name != n) ==> r == []
    decreases |v|
  {
    if v == [] then []
    else
      var last := v[|v| - 1];
      assert forall u :: u in v <==> u in v[..|v| - 1] || u == last;
      CodesNamed(v[..|v| - 1], n) + (if last.name == n then [last.code] else [])
  }

  /** The code column a left merge on the name attaches: one row per match, or
      a single null when the name does not occur in the vintage. */
  function JoinCode(v: Vintage, n: Name): (r: seq<Option<Code>>)
    ensures |r| > 0
    ensures forall o :: o in r <==> (o == None && n !in Names(v)) || (o.Some? && Unit(o.value, n) in v)
    ensures n !in Names(v) ==> r == [None]
    ensures n in Names(v) ==> |r| == |CodesNamed(v, n)|
  {
    var cs := CodesNamed(v, n);
    if cs == [] then
      assert forall u :: u in v ==> u.name != n by {
        forall u | u in v ensures u.name != n { assert u.code !in cs; }
      }
      assert n !in Names(v);
      [None]
    else
      assert n in Names(v) by {
        assert Unit(cs[0], n) in v;
      }
      var r := seq(|cs|, i requires 0 <= i < |cs| => Some(cs[i]));
      assert forall c :: c in cs ==> Some(c) in r by {
        forall c | c in cs ensures Some(c) in r {
          var i :| 0 <= i < |cs| && cs[i] == c;
          assert r[i] == Some(c);
        }
      }
      r
  }

  /** All rows for one curated pair when the new vintage is merged first: for
      each new code, each old code. */
  function NewMajor(p: NamePair, olds: seq<Option<Code>>, news: seq<Option<Code>>): seq<Transition>
    decreases |news|
  {
    if news == [] then []
    else NewMajor(p, olds, news[..|news| - 1])
         + seq(|olds|, i requires 0 <= i < |olds| => Transition(olds[i], p.oldName, news[|news| - 1], p.newName))
  }

  /** All rows for one curated pair when the old vintage is merged first: for
      each old code, each new code. */
  function OldMajor(p: NamePair, olds: seq<Option<Code>>, news: seq<Option<Code>>): seq<Transition>
    decreases |olds|
  {
    if olds == [] then []
    else OldMajor(p, olds[..|olds| - 1], news)
         + seq(|news|, j requires 0 <= j < |news| => Transition(olds[|olds| - 1], p.oldName, news[j], p.newName))
  }

  function ResolvePair(p: NamePair, oldV: Vintage, newV: Vintage, oldFirst: bool): seq<Transition>
  {
    var olds := JoinCode(oldV, p.oldName);
    var news := JoinCode(newV, p.newName);
    if oldFirst then OldMajor(p, olds, news) else NewMajor(p, olds, news)
  }

  /** A curated table resolved to codes: left-merged with the new vintage on
      the new name, then with the old vintage on the old name (the old vintage
      first when oldFirst), keeping the old and new code and name. */
  function Resolve(pairs: seq<NamePair>, oldV: Vintage, newV: Vintage, oldFirst: bool): seq<Transition>
    decreases |pairs|
  {
    if pairs == [] then []
    else Resolve(pairs[..|pairs| - 1], oldV, newV, oldFirst) + ResolvePair(pairs[|pairs| - 1], oldV, newV, oldFirst)
  }

  // ---------------------------------------------------------------------------
  // Lemmas
  // ---------------------------------------------------------------------------

  lemma {:induction false} NewMajorMembers(p: NamePair, olds: seq<Option<Code>>, news: seq<Option<Code>>)
    ensures forall t :: t in NewMajor(p, olds, news) <==>
              t.oldName == p.oldName && t.newName == p.newName && t.oldCode in olds && t.newCode in news
    decreases |news|
  {
    if news != [] {
      var last := news[|news| - 1];
      var tail := seq(|olds|, i requires 0 <= i < |olds| => Transition(olds[i], p.oldName, last, p.newName));
      NewMajorMembers(p, olds, news[..|news| - 1]);
      assert forall o :: o in news <==> o in news[..|news| - 1] || o == last;
      forall o | o in olds ensures Transition(o, p.oldName, last, p.newName) in tail {
        var i :| 0 <= i < |olds| && olds[i] == o;
        assert tail[i] == Transition(o, p.oldName, last, p.newName);
      }
    }
  }

  lemma {:induction false} OldMajorMembers(p: NamePair, olds: seq<Option<Code>>, news: seq<Option<Code>>)
    ensures forall t :: t in OldMajor(p, olds, news) <==>
              t.oldName == p.oldName && t.newName == p.newName && t.oldCode in olds && t.newCode in news
    decreases |olds|
  {
    if olds != [] {
      var last := olds[|olds| - 1];
      var tail := seq(|news|, j requires 0 <= j < |news| => Transition(last, p.oldName, news[j], p.newName));
      OldMajorMembers(p, olds[..|olds| - 1], news);
      assert forall o :: o in olds <==> o in olds[..|olds| - 1] || o == last;
      forall o | o in news ensures Transition(last, p.oldName, o, p.newName) in tail {
        var j :| 0 <= j < |news| && news[j] == o;
        assert tail[j] == Transition(last, p.oldName, o, p.newName);
      }
    }
  }

  /** The number of rows a left merge on name n gives a single row: one per
      row of v with that name, or one null row when v has none. */
  function MatchCount(v: Vintage, n: Name): nat
  {
    if n in Names(v) then |CodesNamed(v, n)| else 1
  }

  /** Merging the new vintage first gives one row per combination of the two
      code lists, duplicates included. */
  lemma {:induction false} NewMajorSize(p: NamePair, olds: seq<Option<Code>>, news: seq<Option<Code>>)
    ensures |NewMajor(p, olds, news)| == |olds| * |news|
    decreases |news|
  {
    if news != [] {
      NewMajorSize(p, olds, news[..|news| - 1]);
      MulPred(|olds|, |news|);
    }
  }

  /** Merging the old vintage first gives one row per combination of the two
      code lists, duplicates included. */
  lemma {:induction false} OldMajorSize(p: NamePair, olds: seq<Option<Code>>, news: seq<Option<Code>>)
    ensures |OldMajor(p, olds, news)| == |olds| * |news|
    decreases |olds|
  {
    if olds != [] {
      OldMajorSize(p, olds[..|olds| - 1], news);
      MulPred(|news|, |olds|);
    }
  }

  lemma MulPred(a: nat, b: nat)
    requires b > 0
    ensures a * (b - 1) + a == a * b
    ensures (b - 1) * a + a == b * a
  {
  }

  /** A curated pair yields the product of its two names' match counts in
      rows, whichever vintage is merged first. */
  lemma ResolvePairSize(p: NamePair, oldV: Vintage, newV: Vintage, oldFirst: bool)
    ensures |ResolvePair(p, oldV, newV, oldFirst)| == MatchCount(oldV, p.oldName) * MatchCount(newV, p.newName)
  {
    var olds := JoinCode(oldV, p.oldName);
    var news := JoinCode(newV, p.newName);
    if oldFirst {
      OldMajorSize(p, olds, news);
    } else {
      NewMajorSize(p, olds, news);
    }
  }

  /** Resolved transition for a curated pair whose two names each resolve. */
  predicate ResolvedFrom(t: Transition, p: NamePair, oldV: Vintage, newV: Vintage)
  {
    && t.oldName == p.oldName
    && t.newName == p.newName
    && (if t.oldCode.Some? then Unit(t.oldCode.value, t.oldName) in oldV else t.oldName !in Names(oldV))
    && (if t.newCode.Some? then Unit(t.newCode.value, t.newName) in newV else t.newName !in Names(newV))
  }

  /** The rows resolved for one pair are exactly the code combinations its two
      names resolve to, in either merge order. */
  lemma ResolvePairMembers(p: NamePair, oldV: Vintage, newV: Vintage, oldFirst: bool)
    ensures forall t :: t in ResolvePair(p, oldV, newV, oldFirst) <==> ResolvedFrom(t, p, oldV, newV)
  {
    var olds := JoinCode(oldV, p.oldName);
    var news := JoinCode(newV, p.newName);
    if oldFirst {
      OldMajorMembers(p, olds, news);
    } else {
      NewMajorMembers(p, olds, news);
    }
  }

  /** Every resolved row comes from a curated pair, and carries a code exactly
      when its vintage has a row with that (code, name); conversely every such
      combination of codes appears. In either merge order. */
  lemma {:induction false} ResolveMembers(pairs: seq<NamePair>, oldV: Vintage, newV: Vintage, oldFirst: bool)
    ensures forall t :: t in Resolve(pairs, oldV, newV, oldFirst) <==>
              exists k :: 0 <= k < |pairs| && ResolvedFrom(t, pairs[k], oldV, newV)
    decreases |pairs|
  {
    if pairs != [] {
      var n := |pairs| - 1;
      ResolveMembers(pairs[..n], oldV, newV, oldFirst);
      ResolvePairMembers(pairs[n], oldV, newV, oldFirst);
      assert pairs == pairs[..n] + [pairs[n]];
      ResolvedFromAppend(Resolve(pairs[..n], oldV, newV, oldFirst), ResolvePair(pairs[n], oldV, newV, oldFirst),
                         pairs[..n], pairs[n], oldV, newV);
    }
  }

  lemma ResolvedFromAppend(prev: seq<Transition>, last: seq<Transition>, pre: seq<NamePair>, p: NamePair,
                           oldV: Vintage, newV: Vintage)
    requires forall t :: t in prev <==> exists k :: 0 <= k < |pre| && ResolvedFrom(t, pre[k], oldV, newV)
    requires forall t :: t in last <==> ResolvedFrom(t, p, oldV, newV)
    ensures forall t :: t in prev + last <==>
              exists k :: 0 <= k < |pre| + 1 && ResolvedFrom(t, (pre + [p])[k], oldV, newV)
  {
    forall t | t in prev + last ensures exists k :: 0 <= k < |pre| + 1 && ResolvedFrom(t, (pre + [p])[k], oldV, newV) {
      if t in prev {
        var k :| 0 <= k < |pre| && ResolvedFrom(t, pre[k], oldV, newV);
        assert (pre + [p])[k] == pre[k];
      } else {
        assert (pre + [p])[|pre|] == p;
      }
    }
    forall t | exists k :: 0 <= k < |pre| + 1 && ResolvedFrom(t, (pre + [p])[k], oldV, newV) ensures t in prev + last {
      var k :| 0 <= k < |pre| + 1 && ResolvedFrom(t, (pre + [p])[k], oldV, newV);
      if k < |pre| {
        assert (pre + [p])[k] == pre[k];
      }
    }
  }

  /** When the name occurs in exactly one row, the merge attaches that row's code. */
  lemma {:induction false} CodesNamedOnce(v: Vintage, n: Name, i: nat)
    requires NamedOnlyAt(v, n, i)
    ensures CodesNamed(v, n) == [v[i].code]
    decreases |v|
  {
    var m := |v| - 1;
    var prefix := v[..m];
    if i == m {
      assert forall u :: u in prefix ==> u.name != n;
    } else {
      assert NamedOnlyAt(prefix, n, i);
      CodesNamedOnce(prefix, n, i);
    }
  }

  /** A curated pair is resolved one-to-one when each of its names occurs in
      exactly one row of its vintage. */
  predicate ResolvesOnce(p: NamePair, oldV: Vintage, newV: Vintage)
  {
    |CodesNamed(oldV, p.oldName)| == 1 && |CodesNamed(newV, p.newName)| == 1
  }

  /** A name held by exactly one row makes its pair resolve one-to-one. */
  lemma NamedOnlyResolvesOnce(p: NamePair, oldV: Vintage, newV: Vintage, i: nat, j: nat)
    requires NamedOnlyAt(oldV, p.oldName, i) && NamedOnlyAt(newV, p.newName, j)
    ensures ResolvesOnce(p, oldV, newV)
  {
    CodesNamedOnce(oldV, p.oldName, i);
    CodesNamedOnce(newV, p.newName, j);
  }

  /** t is the one row a curated pair resolves to: both names kept, both codes found. */
  predicate ResolvedOnce(t: Transition, p: NamePair, oldV: Vintage, newV: Vintage)
  {
    && t.oldName == p.oldName && t.newName == p.newName
    && t.oldCode.Some? && Unit(t.oldCode.value, t.oldName) in oldV
    && t.newCode.Some? && Unit(t.newCode.value, t.newName) in newV
  }

  /** A name held by exactly one row joins to that row's code alone. */
  lemma JoinCodeOnce(v: Vintage, n: Name)
    requires |CodesNamed(v, n)| == 1
    ensures JoinCode(v, n) == [Some(CodesNamed(v, n)[0])]
    ensures Unit(CodesNamed(v, n)[0], n) in v
  {
    assert CodesNamed(v, n)[0] in CodesNamed(v, n);
  }

  lemma MajorSingle(p: NamePair, o: Option<Code>, c: Option<Code>)
    ensures NewMajor(p, [o], [c]) == [Transition(o, p.oldName, c, p.newName)]
    ensures OldMajor(p, [o], [c]) == [Transition(o, p.oldName, c, p.newName)]
  {
    assert NewMajor(p, [o], [c]) == NewMajor(p, [o], []) + [Transition(o, p.oldName, c, p.newName)];
    assert OldMajor(p, [o], [c]) == OldMajor(p, [], [c]) + [Transition(o, p.oldName, c, p.newName)];
  }

  lemma ResolvePairOnce(p: NamePair, oldV: Vintage, newV: Vintage, oldFirst: bool)
    requires ResolvesOnce(p, oldV, newV)
    ensures |ResolvePair(p, oldV, newV, oldFirst)| == 1
    ensures ResolvedOnce(ResolvePair(p, oldV, newV, oldFirst)[0], p, oldV, newV)
  {
    JoinCodeOnce(oldV, p.oldName);
    JoinCodeOnce(newV, p.newName);
    MajorSingle(p, Some(CodesNamed(oldV, p.oldName)[0]), Some(CodesNamed(newV, p.newName)[0]));
  }

  lemma ResolveSnoc(pairs: seq<NamePair>, oldV: Vintage, newV: Vintage, oldFirst: bool)
    requires pairs != []
    ensures Resolve(pairs, oldV, newV, oldFirst)
         == Resolve(pairs[..|pairs| - 1], oldV, newV, oldFirst) + ResolvePair(pairs[|pairs| - 1], oldV, newV, oldFirst)
  {
  }

  /** If every curated name resolves to exactly one row, the resolved table has
      one row per curated pair, in the curated order, carrying both codes. */
  lemma {:induction false} ResolveExact(pairs: seq<NamePair>, oldV: Vintage, newV: Vintage, oldFirst: bool)
    requires forall k :: 0 <= k < |pairs| ==> ResolvesOnce(pairs[k], oldV, newV)
    ensures |Resolve(pairs, oldV, newV, oldFirst)| == |pairs|
    ensures forall k :: 0 <= k < |pairs| ==> ResolvedOnce(Resolve(pairs, oldV, newV, oldFirst)[k], pairs[k], oldV, newV)
    decreases |pairs|
  {
    if pairs != [] {
      var n := |pairs| - 1;
      var pre := pairs[..n];
      assert forall k :: 0 <= k < n ==> pre[k] == pairs[k];
      var prefix := Resolve(pre, oldV, newV, oldFirst);
      var last := ResolvePair(pairs[n], oldV, newV, oldFirst);
      ResolveExact(pre, oldV, newV, oldFirst);
      ResolvePairOnce(pairs[n], oldV, newV, oldFirst);
      ResolveSnoc(pairs, oldV, newV, oldFirst);
      ResolvedOnceAppend(prefix, last, pairs, oldV, newV);
    }
  }

  lemma ResolvedOnceAppend(prefix: seq<Transition>, last: seq<Transition>, pairs: seq<NamePair>, oldV: Vintage, newV: Vintage)
    requires |pairs| > 0 && |prefix| == |pairs| - 1 && |last| == 1
    requires forall k :: 0 <= k < |prefix| ==> ResolvedOnce(prefix[k], pairs[..|prefix|][k], oldV, newV)
    requires ResolvedOnce(last[0], pairs[|prefix|], oldV, newV)
    ensures forall k :: 0 <= k < |pairs| ==> ResolvedOnce((prefix + last)[k], pairs[k], oldV, newV)
  {
    forall k | 0 <= k < |pairs| ensures ResolvedOnce((prefix + last)[k], pairs[k], oldV, newV) {
      if k < |prefix| {
        assert pairs[..|prefix|][k] == pairs[k];
      }
    }
  }

  // ---------------------------------------------------------------------------
  // Facts about the curated tables
  // ---------------------------------------------------------------------------

  /** No old name occurs twice in the table, so the merge on the old column
      never meets a duplicated key. */
  predicate DistinctOldNames(pairs: seq<NamePair>)
  {
    forall i, j :: 0 <= i < j < |pairs| ==> pairs[i].oldName != pairs[j].oldName
  }

  /** The pairs at positions k map a name to itself: a change of code only. */
  predicate CodeOnlyAt(pairs: seq<NamePair>, ks: set<nat>)
  {
    forall k :: 0 <= k < |pairs| ==> (pairs[k].oldName == pairs[k].newName <==> k in ks)
  }

  /** Distinct old names give a table with distinct old names. */
  lemma PairsDistinct(olds: seq<Name>, news: seq<Name>)
    requires |olds| == |news|
    requires forall i, j :: 0 <= i < j < |olds| ==> olds[i] != olds[j]
    ensures DistinctOldNames(Pairs(olds, news))
  {
  }

  /** 2021 -> 2023: 17 districts, in groups of 3, 3, 7 and 4, onto Cumberland,
      Westmorland and Furness, North Yorkshire and Somerset. */
  lemma Changes2123Groups()
    ensures |Changes2123()| == 17
    ensures forall k :: 0 <= k < 3 ==> Changes2123()[k].newName == "Cumberland"
    ensures forall k :: 3 <= k < 6 ==> Changes2123()[k].newName == "Westmorland and Furness"
    ensures forall k :: 6 <= k < 13 ==> Changes2123()[k].newName == "North Yorkshire"
    ensures forall k :: 13 <= k < 17 ==> Changes2123()[k].newName == "Somerset"
  {
  }

  lemma Changes2123Distinct()
    ensures DistinctOldNames(Changes2123())
  {
    OldNames2123Distinct();
    PairsDistinct(OldNames2123(), Repeat("Cumberland", 3) + Repeat("Westmorland and Furness", 3)
                                  + Repeat("North Yorkshire", 7) + Repeat("Somerset", 4));
  }

  lemma OldNames2123Distinct()
    ensures forall i, j :: 0 <= i < j < |OldNames2123()| ==> OldNames2123()[i] != OldNames2123()[j]
  {
    var olds := ["Allerdale", "Carlisle", "Copeland", "Barrow-in-Furness", "Eden", "South Lakeland",
                 "Craven", "Hambleton", "Harrogate", "Richmondshire", "Ryedale", "Scarborough", "Selby",
                 "Mendip", "Sedgemoor", "Somerset West and Taunton", "South Somerset"];
    assert OldNames2123() == olds;
  }

  /** Every 2021 -> 2023 pair changes the name. */
  lemma Changes2123CodeOnly()
    ensures CodeOnlyAt(Changes2123(), {})
  {
  }

  /** 2020 -> 2021: seven districts onto North (4) and West (3) Northamptonshire. */
  lemma Changes2021Groups()
    ensures |Changes2021()| == 7
    ensures forall k :: 0 <= k < 4 ==> Changes2021()[k].newName == "North Northamptonshire"
    ensures forall k :: 4 <= k < 7 ==> Changes2021()[k].newName == "West Northamptonshire"
  {
  }

  lemma Changes2021Distinct()
    ensures DistinctOldNames(Changes2021())
  {
  }

  lemma Changes2021CodeOnly()
    ensures CodeOnlyAt(Changes2021(), {})
  {
  }

  /** 2019 -> 2020: four districts onto Buckinghamshire. */
  lemma Changes1920Groups()
    ensures |Changes1920()| == 4
    ensures forall k :: 0 <= k < 4 ==> Changes1920()[k].newName == "Buckinghamshire"
  {
  }

  lemma Changes1920Distinct()
    ensures DistinctOldNames(Changes1920())
  {
  }

  lemma Changes1920CodeOnly()
    ensures CodeOnlyAt(Changes1920(), {})
  {
  }

  /** 2018 -> 2019: fourteen districts onto five successors (3/5/2/2/2), then
      Glasgow City and North Lanarkshire. */
  lemma Changes1819Groups()
    ensures |Changes1819()| == 16
    ensures forall k :: 0 <= k < 3 ==> Changes1819()[k].newName == "Bournemouth, Christchurch and Poole"
    ensures forall k :: 3 <= k < 8 ==> Changes1819()[k].newName == "Dorset"
    ensures forall k :: 8 <= k < 10 ==> Changes1819()[k].newName == "Somerset West and Taunton"
    ensures forall k :: 10 <= k < 12 ==> Changes1819()[k].newName == "West Suffolk"
    ensures forall k :: 12 <= k < 14 ==> Changes1819()[k].newName == "East Suffolk"
    ensures Changes1819()[14].oldName == "Glasgow City" && Changes1819()[15].oldName == "North Lanarkshire"
  {
  }

  lemma Changes1819Distinct()
    ensures DistinctOldNames(Changes1819())
  {
    OldNames1819Distinct();
    PairsDistinct(OldNames1819(), Repeat("Bournemouth, Christchurch and Poole", 3) + Repeat("Dorset", 5)
                                  + Repeat("Somerset West and Taunton", 2) + Repeat("West Suffolk", 2)
                                  + Repeat("East Suffolk", 2) + ["Glasgow City", "North Lanarkshire"]);
  }

  lemma OldNames1819Distinct()
    ensures forall i, j :: 0 <= i < j < |OldNames1819()| ==> OldNames1819()[i] != OldNames1819()[j]
  {
    var olds := ["Bournemouth", "Poole", "Christchurch", "East Dorset", "North Dorset", "Purbeck", "West Dorset",
                 "Weymouth and Portland", "Taunton Deane", "West Somerset", "Forest Heath", "St Edmundsbury",
                 "Suffolk Coastal", "Waveney", "Glasgow City", "North Lanarkshire"];
    assert OldNames1819() == olds;
  }

  /** Glasgow City and North Lanarkshire are kept by name: a change of code only. */
  lemma Changes1819CodeOnly()
    ensures CodeOnlyAt(Changes1819(), {14, 15})
  {
  }

  /** 2017 -> 2018: Shepway renamed Folkestone and Hythe; Fife and Perth and
      Kinross kept by name. */
  lemma Changes1718Groups()
    ensures |Changes1718()| == 3
    ensures Changes1718()[0] == NamePair("Shepway", "Folkestone and Hythe")
    ensures Changes1718()[1].oldName == "Fife" && Changes1718()[2].oldName == "Perth and Kinross"
  {
  }

  lemma Changes1718Distinct()
    ensures DistinctOldNames(Changes1718())
  {
  }

  lemma Changes1718CodeOnly()
    ensures CodeOnlyAt(Changes1718(), {1, 2})
  {
  }

  /** 2011 -> 2017: twelve pairs. */
  lemma Changes1117Groups()
    ensures |Changes1117()| == 12
  {
  }

  lemma Changes1117Distinct()
    ensures DistinctOldNames(Changes1117())
  {
  }

  /** Six spelling changes, then six districts kept by name. */
  lemma Changes1117CodeOnly()
    ensures CodeOnlyAt(Changes1117(), {6, 7, 8, 9, 10, 11})
  {
  }
}
