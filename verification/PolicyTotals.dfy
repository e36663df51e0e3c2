/** The policy comparison around the knapsack (ml/evaluation.py:79-139): score every row, select
    under the budget, regroup the chosen benefit per query, total over the query groups.
 */
module PolicyTotals {
  import opened Candidates
  import opened ExactKnapsack
  import opened ExactBounds
  import opened BoostedTrees
  import opened Sequences
  import opened Wrappers

  datatype Row = Row(queryId: string, colName: string, features: map<string, real>,
                     filterSizeBytes: real, netBenefit: real, wasBeneficial: real)

  datatype Detail = Detail(key: string, queryId: string, colName: string, predictedP: real, weight: int,
                           netBenefit: real, wasBeneficial: real, selected: bool)

  function Key(row: Row): string {
    row.queryId + ":" + row.colName
  }

  /** int(float): truncation toward zero. */
  function Truncate(x: real): (t: int)
    ensures x >= 0.0 ==> 0 <= t && t as real <= x < t as real + 1.0
    ensures x < 0.0 ==> t <= 0 && t as real - 1.0 < x <= t as real
  {
    if x >= 0.0 then x.Floor else -((-x).Floor)
  }

  function Nets(rows: seq<Row>): seq<real> {
    seq(|rows|, i requires 0 <= i < |rows| => rows[i].netBenefit)
  }

  /** The model can be walked and the row has all its features. */
  ghost predicate ScorableRow(row: Row, model: Model) {
    Usable(model) && Covers(model.featureNames, row.features)
  }

  ghost predicate Scorable(rows: seq<Row>, model: Model) {
    forall i :: 0 <= i < |rows| ==> ScorableRow(rows[i], model)
  }

  ghost predicate Logistic(sigmoid: real -> real) {
    forall x: real :: 0.0 < sigmoid(x) < 1.0
  }

  ghost function CandidateOf(sigmoid: real -> real, row: Row, model: Model): Candidate
    requires ScorableRow(row, model)
  {
    Candidate(Key(row), sigmoid(RawScore(row.features, model)), Truncate(row.filterSizeBytes))
  }

  ghost function CandidatesOf(sigmoid: real -> real, rows: seq<Row>, model: Model): (cs: seq<Candidate>)
    requires Scorable(rows, model)
  {
    seq(|rows|, i requires 0 <= i < |rows| => CandidateOf(sigmoid, rows[i], model))
  }

  /** Positions whose key is among the names the knapsack returned. */
  ghost function ChosenByName(cs: seq<Candidate>, budget: int): (s: set<nat>)
    ensures s <= Indices(|cs|)
  {
    set i | i in Indices(|cs|) && cs[i].name in NamesAt(cs, ExactPicks(cs, budget))
  }

  ghost function Chosen(sigmoid: real -> real, rows: seq<Row>, model: Model, budget: int): set<nat>
    requires Scorable(rows, model)
  {
    ChosenByName(CandidatesOf(sigmoid, rows, model), budget)
  }

  /** cs has the predictions of the rows as values and their truncated filter sizes as weights. */
  ghost predicate Scores(cs: seq<Candidate>, sigmoid: real -> real, rows: seq<Row>, model: Model)
    requires Scorable(rows, model)
  {
    |cs| == |rows| && forall i :: 0 <= i < |rows| ==>
      cs[i].value == sigmoid(RawScore(rows[i].features, model)) && cs[i].weight == Truncate(rows[i].filterSizeBytes)
  }

  /** cs has the predictions and weights of the details. */
  ghost predicate Carries(cs: seq<Candidate>, detail: seq<Detail>) {
    |cs| == |detail| && forall i :: 0 <= i < |cs| ==>
      cs[i].value == detail[i].predictedP && cs[i].weight == detail[i].weight
  }

  ghost function SelectedPositions(detail: seq<Detail>): set<nat> {
    set i | i in Indices(|detail|) && detail[i].selected
  }

  /** The detail of a row before selection. */
  function Unselected(row: Row, p: real, weight: int): Detail {
    Detail(Key(row), row.queryId, row.colName, p, weight, row.netBenefit, row.wasBeneficial, false)
  }

  method MlDetail(sigmoid: real -> real, rows: seq<Row>, model: Model, budget: int) returns (detail: seq<Detail>)
    requires Scorable(rows, model)
    ensures |detail| == |rows|
    ensures forall i :: 0 <= i < |rows| ==>
      && detail[i].key == Key(rows[i]) && detail[i].queryId == rows[i].queryId
      && detail[i].colName == rows[i].colName && detail[i].netBenefit == rows[i].netBenefit
      && detail[i].wasBeneficial == rows[i].wasBeneficial
      && detail[i].predictedP == sigmoid(RawScore(rows[i].features, model))
      && detail[i].weight == Truncate(rows[i].filterSizeBytes)
      && (detail[i].selected <==> i in Chosen(sigmoid, rows, model, budget))
    ensures forall cs: seq<Candidate>, best: set<nat> ::
      Carries(cs, detail) && LeastOptimal(cs, budget, best) ==> SelectedPositions(detail) == Sharing(Keys(rows), best)
    ensures DistinctNames(Keys(rows)) ==>
      forall cs: seq<Candidate> :: Carries(cs, detail) ==> LeastOptimal(cs, budget, SelectedPositions(detail))
  {
    ghost var want := CandidatesOf(sigmoid, rows, model);
    var cs: seq<Candidate> := [];
    detail := [];
    for i := 0 to |rows|
      invariant |detail| == i && cs == want[..i]
      invariant forall j :: 0 <= j < i ==> detail[j] == Unselected(rows[j], want[j].value, want[j].weight)
    {
      var p := PredictFromJson(sigmoid, rows[i].features, model);
      var weight := Truncate(rows[i].filterSizeBytes);
      detail := detail + [Unselected(rows[i], p, weight)];
      cs := cs + [Candidate(Key(rows[i]), p, weight)];
    }
    assert cs == want;
    var names := SelectFiltersExact(cs, budget);
    ghost var scored := detail;
    for i := 0 to |detail|
      invariant |detail| == |scored|
      invariant forall j :: 0 <= j < |detail| ==>
        detail[j] == scored[j].(selected := j < i && scored[j].key in names)
    {
      detail := detail[i := detail[i].(selected := detail[i].key in names)];
    }
    DetailIsBest(sigmoid, rows, model, budget, detail);
  }

  /** Benefit of the members of s that belong to query q, over the first n rows. */
  ghost function GroupSum(rows: seq<Row>, s: set<nat>, q: string, n: nat): real
    requires n <= |rows|
  {
    if n == 0 then 0.0 else
      GroupSum(rows, s, q, n - 1)
      + if n - 1 in s && rows[n - 1].queryId == q then rows[n - 1].netBenefit else 0.0
  }

  ghost predicate Occurs(rows: seq<Row>, s: set<nat>, q: string, n: nat)
    requires n <= |rows|
  {
    exists i :: 0 <= i < n && i in s && rows[i].queryId == q
  }

  /** perQuery holds exactly the queries of the rows in s, each with the sum of their benefits. */
  ghost predicate Accumulates(perQuery: map<string, real>, rows: seq<Row>, s: set<nat>) {
    && (forall q :: q in perQuery <==> Occurs(rows, s, q, |rows|))
    && (forall q :: q in perQuery ==> perQuery[q] == GroupSum(rows, s, q, |rows|))
  }

  /** The accumulation loop of ml_guided_global over scored details; s marks the selected ones. */
  method GroupSelected(detail: seq<Detail>, rows: seq<Row>, ghost s: set<nat>) returns (perQuery: map<string, real>)
    requires |detail| == |rows|
    requires forall i :: 0 <= i < |rows| ==>
      && detail[i].queryId == rows[i].queryId && detail[i].netBenefit == rows[i].netBenefit
      && (detail[i].selected <==> i in s)
    ensures Accumulates(perQuery, rows, s)
  {
    perQuery := map[];
    for i := 0 to |detail|
      invariant forall q :: q in perQuery <==> Occurs(rows, s, q, i)
      invariant forall q :: GroupSum(rows, s, q, i) == if q in perQuery then perQuery[q] else 0.0
    {
      if detail[i].selected {
        var q := detail[i].queryId;
        perQuery := perQuery[q := (if q in perQuery then perQuery[q] else 0.0) + detail[i].netBenefit];
      }
      forall q ensures q in perQuery <==> Occurs(rows, s, q, i + 1) {
        OccursStep(rows, s, q, i);
      }
    }
  }

  lemma {:induction false} OccursStep(rows: seq<Row>, s: set<nat>, q: string, n: nat)
    requires n < |rows|
    ensures Occurs(rows, s, q, n + 1) <==> Occurs(rows, s, q, n) || (n in s && rows[n].queryId == q)
  {
  }

  method MlGuidedGlobal(sigmoid: real -> real, rows: seq<Row>, model: Model, budget: int)
    returns (perQuery: map<string, real>)
    requires Scorable(rows, model)
    ensures Accumulates(perQuery, rows, Chosen(sigmoid, rows, model, budget))
    ensures forall cs: seq<Candidate>, best: set<nat> ::
      Scores(cs, sigmoid, rows, model) && LeastOptimal(cs, budget, best) ==>
      Accumulates(perQuery, rows, Sharing(Keys(rows), best))
  {
    var detail := MlDetail(sigmoid, rows, model, budget);
    perQuery := GroupSelected(detail, rows, Chosen(sigmoid, rows, model, budget));
    ChosenForAll(sigmoid, rows, model, budget);
  }

  function PolicyAlwaysBuild(rows: seq<Row>, q: string): real {
    if rows == [] then 0.0 else
      PolicyAlwaysBuild(rows[..|rows| - 1], q)
      + if rows[|rows| - 1].queryId == q then rows[|rows| - 1].netBenefit else 0.0
  }

  lemma {:induction false} AlwaysBuildIsGroupSum(rows: seq<Row>, q: string, n: nat)
    requires n <= |rows|
    ensures PolicyAlwaysBuild(rows[..n], q) == GroupSum(rows, Indices(|rows|), q, n)
  {
    if n == 0 {
    } else {
      AlwaysBuildIsGroupSum(rows, q, n - 1);
      assert rows[..n][..n - 1] == rows[..n - 1];
    }
  }

  // ----- the first column by name -----

  /** Lexicographic order by code point. */
  predicate LexLeq(a: string, b: string) {
    a == [] || (b != [] && (a[0] < b[0] || (a[0] == b[0] && LexLeq(a[1..], b[1..]))))
  }

  /** a is a prefix of b, or has the smaller character where they first differ. */
  lemma {:induction false} LexLeqIff(a: string, b: string)
    ensures LexLeq(a, b) <==>
      a <= b || exists k: nat :: k < |a| && k < |b| && a[..k] == b[..k] && a[k] < b[k]
  {
    if a == [] || b == [] {
    } else {
      LexLeqIff(a[1..], b[1..]);
      if a[0] == b[0] {
        LexTail(a, b);
      } else {
        assert a[..0] == b[..0];
      }
    }
  }

  lemma {:induction false} LexTail(a: string, b: string)
    requires a != [] && b != [] && a[0] == b[0]
    ensures a <= b <==> a[1..] <= b[1..]
    ensures (exists k: nat :: k < |a| && k < |b| && a[..k] == b[..k] && a[k] < b[k])
       <==> exists k: nat :: k < |a| - 1 && k < |b| - 1 && a[1..][..k] == b[1..][..k] && a[1..][k] < b[1..][k]
  {
    assert a == [a[0]] + a[1..] && b == [b[0]] + b[1..];
    if k: nat :| k < |a| && k < |b| && a[..k] == b[..k] && a[k] < b[k] {
      assert a[1..][..k - 1] == a[..k][1..] == b[..k][1..] == b[1..][..k - 1];
      assert a[1..][k - 1] < b[1..][k - 1];
    }
    if k: nat :| k < |a| - 1 && k < |b| - 1 && a[1..][..k] == b[1..][..k] && a[1..][k] < b[1..][k] {
      assert a[..k + 1] == [a[0]] + a[1..][..k] == [b[0]] + b[1..][..k] == b[..k + 1];
      assert a[k + 1] < b[k + 1];
    }
  }

  lemma {:induction false} LexTotal(a: string, b: string)
    ensures LexLeq(a, b) || LexLeq(b, a)
    ensures LexLeq(a, b) && LexLeq(b, a) ==> a == b
  {
    if a == [] || b == [] {
    } else {
      LexTotal(a[1..], b[1..]);
      assert a == [a[0]] + a[1..] && b == [b[0]] + b[1..];
    }
  }

  lemma {:induction false} LexTransitive(a: string, b: string, c: string)
    requires LexLeq(a, b) && LexLeq(b, c)
    ensures LexLeq(a, c)
  {
    if a == [] {
    } else if a[0] == b[0] == c[0] {
      LexTransitive(a[1..], b[1..], c[1..]);
    }
  }

  /** Among the first n rows, the row of query q that sorting by column name puts first. */
  function FirstColumn(rows: seq<Row>, q: string, n: nat): (r: Option<nat>)
    requires n <= |rows|
    ensures r.Some? ==> r.value < n && rows[r.value].queryId == q
    ensures r == None ==> forall i :: 0 <= i < n ==> rows[i].queryId != q
  {
    if n == 0 then None else
      var r := FirstColumn(rows, q, n - 1);
      if rows[n - 1].queryId != q || (r.Some? && LexLeq(rows[r.value].colName, rows[n - 1].colName)) then r
      else Some(n - 1)
  }

  lemma {:induction false} FirstColumnIsLeast(rows: seq<Row>, q: string, n: nat, i: nat)
    requires n <= |rows| && i < n && rows[i].queryId == q
    ensures FirstColumn(rows, q, n).Some?
    ensures LexLeq(rows[FirstColumn(rows, q, n).value].colName, rows[i].colName)
    ensures rows[FirstColumn(rows, q, n).value].colName == rows[i].colName ==> FirstColumn(rows, q, n).value <= i
  {
    var r := FirstColumn(rows, q, n - 1);
    if r.Some? { LexTotal(rows[r.value].colName, rows[n - 1].colName); }
    if i == n - 1 {
      LexTotal(rows[i].colName, rows[i].colName);
    } else {
      FirstColumnIsLeast(rows, q, n - 1, i);
      var now := FirstColumn(rows, q, n).value;
      if now != r.value { LexTransitive(rows[now].colName, rows[r.value].colName, rows[i].colName); }
    }
  }

  function PolicySingleHop(rows: seq<Row>, q: string): real {
    var r := FirstColumn(rows, q, |rows|);
    if r == None then 0.0 else rows[r.value].netBenefit
  }

  /** single_hop credits the row of the query whose column name comes first; with one row per
      (query, column) pair that row is unique. */
  lemma {:induction false} SingleHopIsFirstColumn(rows: seq<Row>, q: string, i: nat)
    requires DistinctPairs(rows) && i < |rows| && rows[i].queryId == q
    requires forall j :: 0 <= j < |rows| && rows[j].queryId == q ==> LexLeq(rows[i].colName, rows[j].colName)
    ensures PolicySingleHop(rows, q) == rows[i].netBenefit
  {
    FirstColumnIsLeast(rows, q, |rows|, i);
    LexTotal(rows[FirstColumn(rows, q, |rows|).value].colName, rows[i].colName);
  }

  /** The rows whose column name comes first among the rows of their query; of equal names, the first. */
  ghost function FirstColumns(rows: seq<Row>): set<nat> {
    set i | i in Indices(|rows|) && forall j :: 0 <= j < |rows| && rows[j].queryId == rows[i].queryId ==>
      LexLeq(rows[i].colName, rows[j].colName) && (rows[i].colName == rows[j].colName ==> i <= j)
  }

  lemma {:induction false} FirstColumnsIff(rows: seq<Row>, q: string, i: nat)
    requires i < |rows| && rows[i].queryId == q
    ensures i in FirstColumns(rows) <==> FirstColumn(rows, q, |rows|) == Some(i)
  {
    var r := FirstColumn(rows, q, |rows|);
    FirstColumnIsLeast(rows, q, |rows|, i);
    LexTotal(rows[r.value].colName, rows[i].colName);
    forall j | 0 <= j < |rows| && rows[j].queryId == q
      ensures LexLeq(rows[r.value].colName, rows[j].colName)
      ensures rows[r.value].colName == rows[j].colName ==> r.value <= j
    {
      FirstColumnIsLeast(rows, q, |rows|, j);
    }
  }

  lemma {:induction false} SingleHopIsGroupSum(rows: seq<Row>, q: string, n: nat)
    requires n <= |rows|
    ensures var r := FirstColumn(rows, q, |rows|);
      GroupSum(rows, FirstColumns(rows), q, n) == if r.Some? && r.value < n then rows[r.value].netBenefit else 0.0
  {
    if n == 0 {
    } else {
      SingleHopIsGroupSum(rows, q, n - 1);
      if rows[n - 1].queryId == q { FirstColumnsIff(rows, q, n - 1); }
    }
  }

  lemma {:induction false} SingleHopOverIsOverGroups(rows: seq<Row>, groups: seq<string>)
    ensures SingleHopOver(rows, groups) == OverGroups(rows, FirstColumns(rows), groups, |rows|)
  {
    if groups == [] {
    } else {
      SingleHopOverIsOverGroups(rows, groups[..|groups| - 1]);
      SingleHopIsGroupSum(rows, groups[|groups| - 1], |rows|);
    }
  }

  ghost function SingleHopOver(rows: seq<Row>, groups: seq<string>): real {
    if groups == [] then 0.0 else
      SingleHopOver(rows, groups[..|groups| - 1]) + PolicySingleHop(rows, groups[|groups| - 1])
  }

  // ----- totals -----

  /** `groups` lists each query id of the rows once, in any order. */
  ghost predicate Groups(groups: seq<string>, rows: seq<Row>) {
    && (forall i, j :: 0 <= i < j < |groups| ==> groups[i] != groups[j])
    && (forall i :: 0 <= i < |rows| ==> rows[i].queryId in groups)
  }

  ghost function OverGroups(rows: seq<Row>, s: set<nat>, groups: seq<string>, n: nat): real
    requires n <= |rows|
  {
    if groups == [] then 0.0 else
      OverGroups(rows, s, groups[..|groups| - 1], n) + GroupSum(rows, s, groups[|groups| - 1], n)
  }

  /** The loop over the groups; perQuery holds the benefit of the rows in s per query. */
  method GroupTotals(rows: seq<Row>, groups: seq<string>, perQuery: map<string, real>, ghost s: set<nat>)
    returns (noBf: real, singleHop: real, alwaysBuild: real, mlGuided: real)
    requires Groups(groups, rows)
    requires Accumulates(perQuery, rows, s)
    ensures noBf == 0.0
    ensures singleHop == Sum(Nets(rows), FirstColumns(rows), |rows|)
    ensures alwaysBuild == Sum(Nets(rows), Indices(|rows|), |rows|)
    ensures mlGuided == Sum(Nets(rows), s, |rows|)
  {
    ghost var all := Indices(|rows|);
    noBf, singleHop, alwaysBuild, mlGuided := 0.0, 0.0, 0.0, 0.0;
    for g := 0 to |groups|
      invariant noBf == 0.0
      invariant singleHop == SingleHopOver(rows, groups[..g])
      invariant alwaysBuild == OverGroups(rows, all, groups[..g], |rows|)
      invariant mlGuided == OverGroups(rows, s, groups[..g], |rows|)
    {
      var q := groups[g];
      assert groups[..g + 1][..g] == groups[..g];
      assert rows[..|rows|] == rows;
      AlwaysBuildIsGroupSum(rows, q, |rows|);
      NotOccurring(rows, s, q, |rows|);
      noBf := noBf + 0.0;
      singleHop := singleHop + PolicySingleHop(rows, q);
      alwaysBuild := alwaysBuild + PolicyAlwaysBuild(rows, q);
      mlGuided := mlGuided + if q in perQuery then perQuery[q] else 0.0;
    }
    assert groups[..|groups|] == groups;
    SingleHopOverIsOverGroups(rows, groups);
    Regroup(rows, FirstColumns(rows), groups, |rows|);
    Regroup(rows, s, groups, |rows|);
    Regroup(rows, all, groups, |rows|);
  }

  method Totals(sigmoid: real -> real, rows: seq<Row>, model: Model, budget: int, groups: seq<string>)
    returns (noBf: real, singleHop: real, alwaysBuild: real, mlGuided: real)
    requires Scorable(rows, model) && Groups(groups, rows)
    ensures noBf == 0.0
    ensures singleHop == Sum(Nets(rows), FirstColumns(rows), |rows|)
    ensures alwaysBuild == Sum(Nets(rows), Indices(|rows|), |rows|)
    ensures mlGuided == Sum(Nets(rows), Chosen(sigmoid, rows, model, budget), |rows|)
    ensures forall cs: seq<Candidate>, best: set<nat> ::
      Scores(cs, sigmoid, rows, model) && LeastOptimal(cs, budget, best) ==>
      && mlGuided == Sum(Nets(rows), Sharing(Keys(rows), best), |rows|)
      && (DistinctNames(Keys(rows)) ==> mlGuided == Sum(Nets(rows), best, |rows|))
  {
    ghost var s := Chosen(sigmoid, rows, model, budget);
    var perQuery := MlGuidedGlobal(sigmoid, rows, model, budget);
    noBf, singleHop, alwaysBuild, mlGuided := GroupTotals(rows, groups, perQuery, s);
    ChosenForAll(sigmoid, rows, model, budget);
  }

  lemma {:induction false} NotOccurring(rows: seq<Row>, s: set<nat>, q: string, n: nat)
    requires n <= |rows|
    ensures !Occurs(rows, s, q, n) ==> GroupSum(rows, s, q, n) == 0.0
  {
    if n == 0 || Occurs(rows, s, q, n) {
    } else {
      assert !Occurs(rows, s, q, n - 1);
      NotOccurring(rows, s, q, n - 1);
    }
  }

  // ----- regrouping conserves the benefit -----

  lemma {:induction false} NextRow(rows: seq<Row>, s: set<nat>, groups: seq<string>, n: nat)
    requires 0 < n <= |rows| && forall i, j :: 0 <= i < j < |groups| ==> groups[i] != groups[j]
    ensures OverGroups(rows, s, groups, n) == OverGroups(rows, s, groups, n - 1)
      + if n - 1 in s && rows[n - 1].queryId in groups then rows[n - 1].netBenefit else 0.0
  {
    if groups == [] {
    } else {
      var k := |groups| - 1;
      NextRow(rows, s, groups[..k], n);
      assert groups == groups[..k] + [groups[k]];
    }
  }

  lemma {:induction false} NoRows(rows: seq<Row>, s: set<nat>, groups: seq<string>)
    ensures OverGroups(rows, s, groups, 0) == 0.0
  {
    if groups == [] {
    } else {
      NoRows(rows, s, groups[..|groups| - 1]);
    }
  }

  /** Summing per query group and then over groups is summing over rows. */
  lemma {:induction false} Regroup(rows: seq<Row>, s: set<nat>, groups: seq<string>, n: nat)
    requires n <= |rows| && Groups(groups, rows)
    ensures OverGroups(rows, s, groups, n) == Sum(Nets(rows), s, n)
  {
    if n == 0 {
      NoRows(rows, s, groups);
    } else {
      Regroup(rows, s, groups, n - 1);
      NextRow(rows, s, groups, n);
    }
  }

  // ----- names identify the selection -----

  ghost predicate DistinctNames(names: seq<string>) {
    forall i, j :: 0 <= i < j < |names| ==> names[i] != names[j]
  }

  lemma {:induction false} SelectedByName(cs: seq<Candidate>, budget: int)
    ensures ExactSet(cs, budget) <= ChosenByName(cs, budget)
    ensures DistinctNames(Names(cs)) ==> ChosenByName(cs, budget) == ExactSet(cs, budget)
  {
    var picks := ExactPicks(cs, budget);
    var names := NamesAt(cs, picks);
    forall i | i in ExactSet(cs, budget) ensures i in ChosenByName(cs, budget) {
      var k :| 0 <= k < |picks| && picks[k] == i;
      assert names[k] == cs[i].name;
    }
    if DistinctNames(Names(cs)) {
      forall i | i in ChosenByName(cs, budget) ensures i in ExactSet(cs, budget) {
        var k :| 0 <= k < |names| && names[k] == cs[i].name;
        assert Names(cs)[picks[k]] == Names(cs)[i];
      }
    }
  }

  /** Looking candidates up by name recovers the knapsack's choice for all values, or just for all
      values the model can predict, and for all weights and budgets, exactly when the names are
      distinct. */
  lemma {:induction false} NamesIdentifySelectionIff(names: seq<string>)
    ensures (forall cs: seq<Candidate>, b: int :: Names(cs) == names ==> ChosenByName(cs, b) == ExactSet(cs, b))
       <==> DistinctNames(names)
    ensures (forall cs: seq<Candidate>, b: int ::
               Names(cs) == names && Predicted(cs) ==> ChosenByName(cs, b) == ExactSet(cs, b))
       <==> DistinctNames(names)
  {
    if DistinctNames(names) {
      forall cs: seq<Candidate>, b: int | Names(cs) == names ensures ChosenByName(cs, b) == ExactSet(cs, b) {
        SelectedByName(cs, b);
      }
    } else {
      var i, j :| 0 <= i < j < |names| && names[i] == names[j];
      var ws := seq(|names|, _ => 1);
      var cs := Favouring(names, ws, i);
      FavouredIsSelected(names, ws, i, 1);
      SelectedByName(cs, 1);
      assert cs[j].name == Names(cs)[j] == Names(cs)[i] == cs[i].name;
      assert j in ChosenByName(cs, 1) && j !in ExactSet(cs, 1);
    }
  }

  // ----- what is credited is the best selection under the budget -----

  /** Positions whose key is the key of a member of best. */
  ghost function Sharing(keys: seq<string>, best: set<nat>): set<nat> {
    set i | i in Indices(|keys|) && exists j :: j in best && j < |keys| && keys[j] == keys[i]
  }

  lemma {:induction false} SharingDistinct(keys: seq<string>, best: set<nat>)
    requires DistinctNames(keys) && best <= Indices(|keys|)
    ensures Sharing(keys, best) == best
  {
    forall i | i in best ensures i in Sharing(keys, best) {
      assert keys[i] == keys[i];
    }
  }

  lemma {:induction false} NamedIff(cs: seq<Candidate>, picks: seq<nat>, i: nat)
    requires i < |cs| && forall k :: 0 <= k < |picks| ==> picks[k] < |cs|
    ensures cs[i].name in NamesAt(cs, picks) <==> exists j :: j in picks && cs[j].name == cs[i].name
  {
    var names := NamesAt(cs, picks);
    if cs[i].name in names {
      var k :| 0 <= k < |names| && names[k] == cs[i].name;
      assert picks[k] in picks;
    }
    if j :| j in picks && cs[j].name == cs[i].name {
      var k :| 0 <= k < |picks| && picks[k] == j;
      assert names[k] == cs[j].name;
    }
  }

  lemma {:induction false} SharingIff(cs: seq<Candidate>, picks: seq<nat>, i: nat)
    requires i < |cs| && forall k :: 0 <= k < |picks| ==> picks[k] < |cs|
    ensures i in Sharing(Names(cs), ToSet(picks)) <==> exists j :: j in picks && cs[j].name == cs[i].name
  {
    var keys, best := Names(cs), ToSet(picks);
    if j :| j in best && j < |keys| && keys[j] == keys[i] {
      assert j in picks && cs[j].name == cs[i].name;
    }
    if j :| j in picks && cs[j].name == cs[i].name {
      assert j in best && keys[j] == keys[i];
    }
  }

  lemma {:induction false} ChosenByNameIsSharing(cs: seq<Candidate>, budget: int)
    ensures ChosenByName(cs, budget) == Sharing(Names(cs), ExactSet(cs, budget))
  {
    var picks := ExactPicks(cs, budget);
    forall i | i in Indices(|cs|)
      ensures i in ChosenByName(cs, budget) <==> i in Sharing(Names(cs), ExactSet(cs, budget))
    {
      NamedIff(cs, picks, i);
      SharingIff(cs, picks, i);
    }
  }

  /** Only values and weights matter for what is optimal. */
  lemma {:induction false} LeastOptimalFrame(cs: seq<Candidate>, ds: seq<Candidate>, budget: int, s: set<nat>)
    requires Values(cs) == Values(ds) && Weights(cs) == Weights(ds)
    ensures LeastOptimal(cs, budget, s) <==> LeastOptimal(ds, budget, s)
  {
    assert |cs| == |Values(cs)| == |ds|;
    assert forall t: set<nat> :: Fits(cs, budget, t) <==> Fits(ds, budget, t);
    assert forall t: set<nat> :: Value(cs, t) == Value(ds, t);
    assert forall t: set<nat> :: Optimal(cs, budget, t) <==> Optimal(ds, budget, t);
  }

  /** The rows credited are those sharing a key with the least optimal selection for the predictions. */
  lemma {:induction false} ChosenIsBest(
    sigmoid: real -> real, rows: seq<Row>, model: Model, budget: int, cs: seq<Candidate>, best: set<nat>)
    requires Scorable(rows, model) && Scores(cs, sigmoid, rows, model) && LeastOptimal(cs, budget, best)
    ensures Chosen(sigmoid, rows, model, budget) == Sharing(Keys(rows), best)
    ensures DistinctNames(Keys(rows)) ==> Chosen(sigmoid, rows, model, budget) == best
  {
    var ds := CandidatesOf(sigmoid, rows, model);
    assert Values(cs) == Values(ds) && Weights(cs) == Weights(ds);
    LeastOptimalFrame(cs, ds, budget, best);
    ExactIsCanonical(ds, budget, best);
    ChosenByNameIsSharing(ds, budget);
    assert Names(ds) == Keys(rows);
    if DistinctNames(Keys(rows)) { SharingDistinct(Keys(rows), best); }
  }

  lemma {:induction false} ChosenForAll(sigmoid: real -> real, rows: seq<Row>, model: Model, budget: int)
    requires Scorable(rows, model)
    ensures forall cs: seq<Candidate>, best: set<nat> ::
      Scores(cs, sigmoid, rows, model) && LeastOptimal(cs, budget, best) ==>
      && Chosen(sigmoid, rows, model, budget) == Sharing(Keys(rows), best)
      && (DistinctNames(Keys(rows)) ==> Chosen(sigmoid, rows, model, budget) == best)
  {
    forall cs: seq<Candidate>, best: set<nat> | Scores(cs, sigmoid, rows, model) && LeastOptimal(cs, budget, best)
      ensures Chosen(sigmoid, rows, model, budget) == Sharing(Keys(rows), best)
      ensures DistinctNames(Keys(rows)) ==> Chosen(sigmoid, rows, model, budget) == best
    {
      ChosenIsBest(sigmoid, rows, model, budget, cs, best);
    }
  }

  lemma {:induction false} DetailIsBest(
    sigmoid: real -> real, rows: seq<Row>, model: Model, budget: int, detail: seq<Detail>)
    requires Scorable(rows, model) && |detail| == |rows|
    requires forall i :: 0 <= i < |rows| ==>
      && detail[i].predictedP == sigmoid(RawScore(rows[i].features, model))
      && detail[i].weight == Truncate(rows[i].filterSizeBytes)
      && (detail[i].selected <==> i in Chosen(sigmoid, rows, model, budget))
    ensures forall cs: seq<Candidate>, best: set<nat> ::
      Carries(cs, detail) && LeastOptimal(cs, budget, best) ==> SelectedPositions(detail) == Sharing(Keys(rows), best)
    ensures DistinctNames(Keys(rows)) ==>
      forall cs: seq<Candidate> :: Carries(cs, detail) ==> LeastOptimal(cs, budget, SelectedPositions(detail))
  {
    assert SelectedPositions(detail) == Chosen(sigmoid, rows, model, budget);
    forall cs: seq<Candidate>, best: set<nat> | Carries(cs, detail) && LeastOptimal(cs, budget, best)
      ensures SelectedPositions(detail) == Sharing(Keys(rows), best)
      ensures DistinctNames(Keys(rows)) ==> SelectedPositions(detail) == best
    {
      assert Scores(cs, sigmoid, rows, model);
      ChosenIsBest(sigmoid, rows, model, budget, cs, best);
    }
    forall cs: seq<Candidate> | Carries(cs, detail) && DistinctNames(Keys(rows))
      ensures LeastOptimal(cs, budget, SelectedPositions(detail))
    {
      ExactIsCanonical(cs, budget, ExactSet(cs, budget));
    }
  }

  // ----- when keys are distinct -----

  ghost function Keys(rows: seq<Row>): seq<string> {
    seq(|rows|, i requires 0 <= i < |rows| => Key(rows[i]))
  }

  ghost function QueryIds(rows: seq<Row>): seq<string> {
    seq(|rows|, i requires 0 <= i < |rows| => rows[i].queryId)
  }

  /** One row per (query, column) pair, as after aggregation over runs. */
  ghost predicate DistinctPairs(rows: seq<Row>) {
    forall i, j :: 0 <= i < j < |rows| ==>
      !(rows[i].queryId == rows[j].queryId && rows[i].colName == rows[j].colName)
  }

  ghost predicate Collide(p: string, c: string, q: string, d: string) {
    p + ":" + c == q + ":" + d
  }

  /** Two different query ids have colliding keys for some columns exactly when one of them is the
      other followed by ':' and more. */
  lemma {:induction false} KeysCollideIff(p: string, q: string)
    requires p != q
    ensures (exists c, d :: Collide(p, c, q, d)) <==> p + ":" <= q || q + ":" <= p
  {
    if c, d :| Collide(p, c, q, d) {
      var key := p + ":" + c;
      assert key[..|p|] == p && key[..|q|] == q && key[|p|] == ':' == key[|q|];
      assert |p| < |q| ==> key[..|p| + 1] == p + ":";
      assert |q| < |p| ==> key[..|q| + 1] == q + ":";
    }
    if p + ":" <= q { CollidingColumns(p, q); }
    if q + ":" <= p { CollidingColumns(q, p); assert Collide(p, "", q, p[|q| + 1..] + ":"); }
  }

  lemma {:induction false} CollidingColumns(p: string, q: string)
    requires p + ":" <= q
    ensures Collide(p, q[|p| + 1..] + ":", q, "")
  {
    assert q == p + ":" + q[|p| + 1..];
  }

  /** No query id is another one followed by ':' and more. */
  ghost predicate SeparableIds(ids: seq<string>) {
    forall i, j :: 0 <= i < |ids| && 0 <= j < |ids| ==> !(ids[i] + ":" <= ids[j])
  }

  lemma {:induction false} SeparableKeys(rows: seq<Row>)
    requires DistinctPairs(rows) && SeparableIds(QueryIds(rows))
    ensures DistinctNames(Keys(rows))
  {
    forall i, j | 0 <= i < j < |rows| ensures Keys(rows)[i] != Keys(rows)[j] {
      var a, b, ids := rows[i], rows[j], QueryIds(rows);
      if a.queryId == b.queryId {
        AppendCancels(a.queryId + ":", a.colName, b.colName);
      } else {
        KeysCollideIff(a.queryId, b.queryId);
        assert !(ids[i] + ":" <= ids[j]) && !(ids[j] + ":" <= ids[i]);
        assert !Collide(a.queryId, a.colName, b.queryId, b.colName);
      }
    }
  }

  /** Column m of the rows below; all of them differ in length. */
  ghost function CollidingColumn(c: string, i: nat, j: nat, m: nat): (col: string)
    ensures |col| == if m == i then |c| else if m == j then 0 else |c| + 1 + m
    ensures m == i ==> col == c
  {
    if m == i then c else if m == j then "" else seq(|c| + 1 + m, _ => 'x')
  }

  /** Rows with given query ids and distinct columns, except that the keys of rows i and j are equal. */
  lemma {:induction false} CollidingRows(ids: seq<string>, i: nat, j: nat) returns (rows: seq<Row>)
    requires i < |ids| && j < |ids| && ids[i] + ":" <= ids[j]
    ensures QueryIds(rows) == ids && DistinctPairs(rows) && !DistinctNames(Keys(rows))
  {
    var c := ids[j][|ids[i]| + 1..] + ":";
    rows := seq(|ids|, m requires 0 <= m < |ids| =>
      Row(ids[m], CollidingColumn(c, i, j, m), map[], 0.0, 0.0, 0.0));
    assert forall m, n :: 0 <= m < n < |ids| ==> |rows[m].colName| != |rows[n].colName|;
    assert QueryIds(rows) == ids;
    CollidingColumns(ids[i], ids[j]);
    assert Keys(rows)[i] == Keys(rows)[j];
  }

  /** Column c of query a:b and column b:c of query a share a key. */
  lemma {:induction false} KeyCollision()
    ensures Collide("a:b", "c", "a", "b:c")
    ensures !SeparableIds(["a:b", "a"])
  {
    assert "a:b" + ":" + "c" == "a:b:c" == "a" + ":" + "b:c";
    var ids := ["a:b", "a"];
    assert ids[1] + ":" == "a:" <= "a:b" == ids[0];
  }

  /** One row per pair gives distinct keys, whatever the columns, exactly when no query id is another
      one followed by ':' and more. */
  lemma {:induction false} DistinctKeysIff(ids: seq<string>)
    ensures (forall rows: seq<Row> :: QueryIds(rows) == ids && DistinctPairs(rows) ==> DistinctNames(Keys(rows)))
       <==> SeparableIds(ids)
  {
    if SeparableIds(ids) {
      forall rows: seq<Row> | QueryIds(rows) == ids && DistinctPairs(rows) ensures DistinctNames(Keys(rows)) {
        SeparableKeys(rows);
      }
    } else {
      var i, j :| 0 <= i < |ids| && 0 <= j < |ids| && ids[i] + ":" <= ids[j];
      var rows := CollidingRows(ids, i, j);
    }
  }

  /** With distinct keys the rows credited to ml_guided are the ones the knapsack chose. */
  lemma {:induction false} ChosenIsExact(sigmoid: real -> real, rows: seq<Row>, model: Model, budget: int)
    requires Scorable(rows, model) && DistinctNames(Keys(rows))
    ensures Chosen(sigmoid, rows, model, budget) == ExactSet(CandidatesOf(sigmoid, rows, model), budget)
  {
    var cs := CandidatesOf(sigmoid, rows, model);
    assert Names(cs) == Keys(rows);
    SelectedByName(cs, budget);
  }

  lemma {:induction false} AllChosen(cs: seq<Candidate>, budget: int)
    requires forall i :: 0 <= i < |cs| ==> cs[i].value > 0.0
    requires Fits(cs, budget, Indices(|cs|))
    ensures ChosenByName(cs, budget) == Indices(|cs|)
  {
    AllSelectedIff(cs, budget);
    SelectedByName(cs, budget);
  }

  lemma {:induction false} PredictionsInRange(sigmoid: real -> real, rows: seq<Row>, model: Model)
    requires Scorable(rows, model) && Logistic(sigmoid)
    ensures Predicted(CandidatesOf(sigmoid, rows, model))
  {
    forall i | 0 <= i < |rows| ensures 0.0 < CandidatesOf(sigmoid, rows, model)[i].value < 1.0 {
      assert CandidatesOf(sigmoid, rows, model)[i] == CandidateOf(sigmoid, rows[i], model);
    }
  }

  /** When all scaled weights fit together every row is credited, so ml_guided equals always_build. */
  lemma {:induction false} MlGuidedIsAlwaysBuild(sigmoid: real -> real, rows: seq<Row>, model: Model, budget: int)
    requires Scorable(rows, model) && Logistic(sigmoid)
    requires Fits(CandidatesOf(sigmoid, rows, model), budget, Indices(|rows|))
    ensures Sum(Nets(rows), Chosen(sigmoid, rows, model, budget), |rows|) == Sum(Nets(rows), Indices(|rows|), |rows|)
  {
    var cs := CandidatesOf(sigmoid, rows, model);
    PredictionsInRange(sigmoid, rows, model);
    AllChosen(cs, budget);
    assert Chosen(sigmoid, rows, model, budget) == Indices(|rows|);
  }
}
