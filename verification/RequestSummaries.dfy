/** Grouped request statistics (datafusion-cli/src/object_storage/instrumented.rs:506-515, 565-583,
    623-639, 692-753).
 */
module RequestSummaries {
  import opened Wrappers
  import opened MachineIntegers

  datatype Operation = Copy | Delete | Get | Head | List | Put

  /** Position in the derived ordering of Operation. */
  function Rank(op: Operation): nat {
    match op case Copy => 0 case Delete => 1 case Get => 2 case Head => 3 case List => 4 case Put => 5
  }

  /** Duration::MAX in nanoseconds. */
  const DURATION_MAX: nat := USIZE_MAX * 1_000_000_000 + 999_999_999

  /** A recorded duration of 0 means that none was set yet. */
  datatype Request = Request(op: Operation, durationNanos: nat, size: Option<nat>) {
    function Duration(): Option<nat> {
      if durationNanos == 0 then None else Some(durationNanos)
    }

    /** The values fit the source's 64-bit fields. */
    predicate InRange() {
      durationNanos <= USIZE_MAX && (size.Some? ==> size.value <= USIZE_MAX)
    }
  }

  /** Wrap-around of a type whose greatest value is `largest`. */
  function Wrapped(sum: nat, largest: nat): nat {
    sum % (largest + 1)
  }

  datatype Stats = Stats(min: nat, max: nat, sum: nat) {
    function Push(v: nat, largest: nat): Stats {
      Stats(if v <= min then v else min, if v >= max then v else max, Wrapped(sum + v, largest))
    }
  }

  datatype Summary = Summary(operation: Operation, count: nat, durationStats: Option<Stats>, sizeStats: Option<Stats>)

  class RequestSummary {
    const operation: Operation
    var count: nat
    var durationStats: Option<Stats>
    var sizeStats: Option<Stats>

    constructor (op: Operation)
      ensures View() == Summary(op, 0, None, None)
    {
      operation, count, durationStats, sizeStats := op, 0, None, None;
    }

    function View(): Summary
      reads this
    {
      Summary(operation, count, durationStats, sizeStats)
    }

    /** Adding durations panics on overflow, in every build; adding sizes wraps in an optimised one. */
    method Push(r: Request) returns (panics: bool)
      requires r.InRange()
      modifies this
      ensures panics <==> DurationOverflows(old(durationStats), r.Duration())
      ensures !panics ==>
        && count == old(count) + 1
        && durationStats == Pushed(old(durationStats), r.Duration(), DURATION_MAX)
        && sizeStats == Pushed(old(sizeStats), r.size, USIZE_MAX)
    {
      count := count + 1;
      if r.Duration().Some? {
        if durationStats == None { durationStats := Some(Stats(DURATION_MAX, 0, 0)); }
        if durationStats.value.sum + r.Duration().value > DURATION_MAX { return true; }
        durationStats := Some(durationStats.value.Push(r.Duration().value, DURATION_MAX));
      }
      if r.size.Some? {
        if sizeStats == None { sizeStats := Some(Stats(USIZE_MAX, 0, 0)); }
        sizeStats := Some(sizeStats.value.Push(r.size.value, USIZE_MAX));
      }
      panics := false;
    }
  }

  predicate DurationOverflows(st: Option<Stats>, v: Option<nat>) {
    v.Some? && (if st == None then 0 else st.value.sum) + v.value > DURATION_MAX
  }

  /** get_or_insert_default().push(v), when there is a value to push. */
  function Pushed(st: Option<Stats>, v: Option<nat>, largest: nat): Option<Stats> {
    if v == None then st
    else Some((if st == None then Stats(largest, 0, 0) else st.value).Push(v.value, largest))
  }

  // ----- the declarative form -----

  datatype Metric = Occurrence | DurationOf | SizeOf

  ghost function Reading(r: Request, op: Operation, m: Metric): seq<nat> {
    if r.op != op then [] else
      match m
      case Occurrence => [1]
      case DurationOf => if r.Duration().Some? then [r.Duration().value] else []
      case SizeOf => if r.size.Some? then [r.size.value] else []
  }

  /** The values of a metric over the requests of one operation. */
  ghost function Readings(rs: seq<Request>, op: Operation, m: Metric): seq<nat> {
    if rs == [] then [] else Readings(rs[..|rs| - 1], op, m) + Reading(rs[|rs| - 1], op, m)
  }

  ghost function SumOf(vs: seq<nat>): nat {
    if vs == [] then 0 else SumOf(vs[..|vs| - 1]) + vs[|vs| - 1]
  }

  /** Minimum, maximum and sum of the values, the sum modulo the size of its type. */
  ghost predicate IsStats(st: Option<Stats>, vs: seq<nat>, largest: nat) {
    if vs == [] then st == None
    else st.Some? && st.value.min in vs && st.value.max in vs && st.value.sum == Wrapped(SumOf(vs), largest)
         && forall v :: v in vs ==> st.value.min <= v <= st.value.max
  }

  ghost predicate IsSummary(s: Summary, op: Operation, rs: seq<Request>) {
    && s.operation == op && s.count == |Readings(rs, op, Occurrence)|
    && IsStats(s.durationStats, Readings(rs, op, DurationOf), DURATION_MAX)
    && IsStats(s.sizeStats, Readings(rs, op, SizeOf), USIZE_MAX)
  }

  /** The durations recorded for some operation do not fit in a Duration. */
  ghost predicate Panics(rs: seq<Request>) {
    exists op :: DurationSum(rs, op) > DURATION_MAX
  }

  ghost function DurationSum(rs: seq<Request>, op: Operation): nat {
    SumOf(Readings(rs, op, DurationOf))
  }

  ghost predicate Occurs(op: Operation, rs: seq<Request>) {
    exists i :: 0 <= i < |rs| && rs[i].op == op
  }

  ghost predicate Ordered(out: seq<Summary>) {
    forall i, j :: 0 <= i < j < |out| ==> Rank(out[i].operation) < Rank(out[j].operation)
  }

  /** One summary per occurring operation, strictly ordered, each the statistics of its requests. */
  ghost predicate Summarizes(out: seq<Summary>, rs: seq<Request>) {
    && Ordered(out)
    && (forall i :: 0 <= i < |out| ==> Occurs(out[i].operation, rs) && IsSummary(out[i], out[i].operation, rs))
    && (forall op :: Occurs(op, rs) ==> exists i :: 0 <= i < |out| && out[i].operation == op)
  }

  lemma {:induction false} SumSnoc(vs: seq<nat>, v: nat)
    ensures SumOf(vs + [v]) == SumOf(vs) + v
  {
    assert (vs + [v])[..|vs|] == vs;
  }

  lemma {:induction false} ReadingsSnoc(rs: seq<Request>, r: Request, op: Operation, m: Metric)
    ensures Readings(rs + [r], op, m) == Readings(rs, op, m) + Reading(r, op, m)
    ensures r.op != op ==> Readings(rs + [r], op, m) == Readings(rs, op, m)
  {
    assert (rs + [r])[..|rs|] == rs;
    assert Readings(rs, op, m) + [] == Readings(rs, op, m);
  }

  lemma {:induction false} WrappedSum(sum: nat, v: nat, largest: nat)
    requires v <= largest
    ensures Wrapped(Wrapped(sum, largest) + v, largest) == Wrapped(sum + v, largest)
  {
    var m := largest + 1;
    var q, r := sum / m, sum % m;
    assert sum == m * q + r;
    if r + v < m {
      ModuloIs(sum + v, m, q, r + v);
      ModuloIs(r + v, m, 0, r + v);
    } else {
      assert m * (q + 1) == m * q + m;
      ModuloIs(sum + v, m, q + 1, r + v - m);
      ModuloIs(r + v, m, 1, r + v - m);
    }
  }

  lemma {:induction false} ModuloIs(n: nat, m: nat, q: nat, r: nat)
    requires n == m * q + r && r < m
    ensures n % m == r
  {
    var d := n / m - q;
    assert n == m * (n / m) + n % m;
    assert m * d == r - n % m;
    NoMultipleBetween(m, d);
  }

  lemma {:induction false} NoMultipleBetween(m: int, d: int)
    requires m > 0 && -m < m * d < m
    ensures d == 0
  {
    assert d >= 1 ==> m * d >= m;
    assert d <= -1 ==> m * d <= -m;
  }

  lemma {:induction false} PushedExtremes(st: Option<Stats>, vs: seq<nat>, v: nat, largest: nat)
    requires IsStats(st, vs, largest) && v <= largest
    ensures var now := Pushed(st, Some(v), largest).value;
      now.min in vs + [v] && now.max in vs + [v] && forall x :: x in vs + [v] ==> now.min <= x <= now.max
  {
    assert forall x :: x in vs + [v] <==> x in vs || x == v;
  }

  lemma {:induction false} PushedSum(st: Option<Stats>, vs: seq<nat>, v: nat, largest: nat)
    requires IsStats(st, vs, largest) && v <= largest
    ensures Pushed(st, Some(v), largest).value.sum == Wrapped(SumOf(vs + [v]), largest)
  {
    SumSnoc(vs, v);
    WrappedSum(SumOf(vs), v, largest);
  }

  lemma {:induction false} PushedStats(st: Option<Stats>, vs: seq<nat>, v: Option<nat>, largest: nat)
    requires IsStats(st, vs, largest) && (v.Some? ==> v.value <= largest)
    ensures IsStats(Pushed(st, v, largest), vs + if v.Some? then [v.value] else [], largest)
  {
    if v.Some? {
      PushedExtremes(st, vs, v.value, largest);
      PushedSum(st, vs, v.value, largest);
    } else {
      assert vs + [] == vs;
    }
  }

  ghost function PushedSummary(s: Summary, r: Request): Summary {
    Summary(s.operation, s.count + 1,
            Pushed(s.durationStats, r.Duration(), DURATION_MAX), Pushed(s.sizeStats, r.size, USIZE_MAX))
  }

  /** Pushing a request keeps a summary the summary of what it has seen. */
  lemma {:induction false} SummaryStep(s: Summary, rs: seq<Request>, r: Request)
    requires r.InRange() && IsSummary(s, r.op, rs)
    ensures IsSummary(PushedSummary(s, r), r.op, rs + [r])
  {
    ReadingsSnoc(rs, r, r.op, Occurrence);
    ReadingsSnoc(rs, r, r.op, DurationOf);
    ReadingsSnoc(rs, r, r.op, SizeOf);
    PushedStats(s.durationStats, Readings(rs, r.op, DurationOf), r.Duration(), DURATION_MAX);
    PushedStats(s.sizeStats, Readings(rs, r.op, SizeOf), r.size, USIZE_MAX);
  }

  lemma {:induction false} OtherStep(s: Summary, op: Operation, rs: seq<Request>, r: Request)
    requires r.op != op && IsSummary(s, op, rs)
    ensures IsSummary(s, op, rs + [r])
  {
    ReadingsSnoc(rs, r, op, Occurrence);
    ReadingsSnoc(rs, r, op, DurationOf);
    ReadingsSnoc(rs, r, op, SizeOf);
  }

  lemma {:induction false} NothingRead(op: Operation, rs: seq<Request>, m: Metric)
    requires !Occurs(op, rs)
    ensures Readings(rs, op, m) == []
  {
    if rs == [] {
    } else {
      assert !Occurs(op, rs[..|rs| - 1]);
      assert rs[|rs| - 1].op != op;
      NothingRead(op, rs[..|rs| - 1], m);
    }
  }

  lemma {:induction false} EmptySummary(op: Operation, rs: seq<Request>)
    requires !Occurs(op, rs)
    ensures IsSummary(Summary(op, 0, None, None), op, rs)
  {
    NothingRead(op, rs, Occurrence);
    NothingRead(op, rs, DurationOf);
    NothingRead(op, rs, SizeOf);
  }

  lemma {:induction false} OccursStep(op: Operation, rs: seq<Request>, r: Request)
    ensures Occurs(op, rs + [r]) <==> Occurs(op, rs) || op == r.op
  {
    if op == r.op { assert (rs + [r])[|rs|].op == op; }
    if i :| 0 <= i < |rs| && rs[i].op == op { assert (rs + [r])[i].op == op; }
  }

  type Views = map<Operation, Summary>

  /** One view per occurring operation, each the summary of its requests. */
  ghost predicate Tabulates(views: Views, rs: seq<Request>) {
    && (forall op :: op in views <==> Occurs(op, rs))
    && (forall op :: op in views ==> IsSummary(views[op], op, rs))
  }

  /** The views after one more request. */
  ghost function NextViews(views: Views, r: Request): Views {
    views[r.op := PushedSummary(if r.op in views then views[r.op] else Summary(r.op, 0, None, None), r)]
  }

  lemma {:induction false} NextViewIsSummary(views: Views, rs: seq<Request>, r: Request, op: Operation)
    requires r.InRange() && Tabulates(views, rs) && op in NextViews(views, r)
    ensures IsSummary(NextViews(views, r)[op], op, rs + [r])
  {
    if op != r.op {
      OtherStep(views[op], op, rs, r);
    } else if op in views {
      SummaryStep(views[op], rs, r);
    } else {
      EmptySummary(op, rs);
      SummaryStep(Summary(op, 0, None, None), rs, r);
    }
  }

  lemma {:induction false} TabulatesStep(views: Views, rs: seq<Request>, r: Request)
    requires r.InRange() && Tabulates(views, rs)
    ensures Tabulates(NextViews(views, r), rs + [r])
  {
    forall op ensures Occurs(op, rs + [r]) <==> Occurs(op, rs) || op == r.op { OccursStep(op, rs, r); }
    forall op | op in NextViews(views, r) ensures IsSummary(NextViews(views, r)[op], op, rs + [r]) {
      NextViewIsSummary(views, rs, r, op);
    }
  }

  ghost function ViewsOf(table: map<Operation, RequestSummary>): Views
    reads table.Values
  {
    map op | op in table :: table[op].View()
  }

  ghost predicate Keyed(table: map<Operation, RequestSummary>) {
    forall op :: op in table ==> table[op].operation == op
  }

  ghost predicate Overflows(views: Views, r: Request) {
    DurationOverflows(if r.op in views then views[r.op].durationStats else None, r.Duration())
  }

  /** One iteration: look the summary up, or insert a new one, and push in place. */
  method Record(table: map<Operation, RequestSummary>, rd: Request)
    returns (table': map<Operation, RequestSummary>, panics: bool)
    requires rd.InRange() && Keyed(table)
    modifies table.Values
    ensures Keyed(table') && fresh(table'.Values - table.Values)
    ensures panics <==> Overflows(old(ViewsOf(table)), rd)
    ensures !panics ==> ViewsOf(table') == NextViews(old(ViewsOf(table)), rd)
  {
    table' := table;
    if rd.op !in table {
      var summary := new RequestSummary(rd.op);
      table' := table[rd.op := summary];
    }
    assert forall op :: op in table' && op != rd.op ==> table'[op] != table'[rd.op];
    assert forall op :: op in table && op != rd.op ==> table'[op].View() == old(table[op].View());
    assert rd.op in table ==> table'[rd.op].View() == old(table[rd.op].View());
    panics := table'[rd.op].Push(rd);
  }

  lemma {:induction false} DurationSumSnoc(rs: seq<Request>, r: Request, op: Operation)
    ensures DurationSum(rs + [r], op)
         == DurationSum(rs, op) + if r.op == op && r.Duration().Some? then r.Duration().value else 0
  {
    ReadingsSnoc(rs, r, op, DurationOf);
    if r.op == op && r.Duration().Some? {
      SumSnoc(Readings(rs, op, DurationOf), r.Duration().value);
    } else {
      assert Readings(rs, op, DurationOf) + [] == Readings(rs, op, DurationOf);
    }
  }

  lemma {:induction false} RecordedSum(views: Views, rs: seq<Request>, op: Operation)
    requires Tabulates(views, rs) && DurationSum(rs, op) <= DURATION_MAX
    ensures op in views && views[op].durationStats.Some? ==> views[op].durationStats.value.sum == DurationSum(rs, op)
    ensures op !in views || views[op].durationStats == None ==> DurationSum(rs, op) == 0
  {
    if op !in views { NothingRead(op, rs, DurationOf); }
  }

  /** A step overflows exactly when the requests so far no longer fit. */
  lemma {:induction false} PanicsStep(views: Views, rs: seq<Request>, r: Request)
    requires Tabulates(views, rs) && !Panics(rs)
    ensures Overflows(views, r) <==> Panics(rs + [r])
  {
    assert DurationSum(rs, r.op) <= DURATION_MAX;
    RecordedSum(views, rs, r.op);
    forall op ensures DurationSum(rs + [r], op)
      == DurationSum(rs, op) + if r.op == op && r.Duration().Some? then r.Duration().value else 0
    {
      DurationSumSnoc(rs, r, op);
    }
  }

  lemma {:induction false} DurationSumPrefix(rs: seq<Request>, k: nat, op: Operation)
    requires k <= |rs|
    ensures DurationSum(rs[..k], op) <= DurationSum(rs, op)
  {
    if k == |rs| {
      assert rs[..k] == rs;
    } else {
      var n := |rs| - 1;
      assert rs == rs[..n] + [rs[n]] && rs[..n][..k] == rs[..k];
      DurationSumPrefix(rs[..n], k, op);
      DurationSumSnoc(rs[..n], rs[n], op);
    }
  }

  lemma {:induction false} PanicsPrefix(rs: seq<Request>, k: nat)
    requires k <= |rs| && Panics(rs[..k])
    ensures Panics(rs)
  {
    var op :| DurationSum(rs[..k], op) > DURATION_MAX;
    DurationSumPrefix(rs, k, op);
  }

  lemma {:induction false} NothingPanics()
    ensures !Panics([])
  {
  }

  lemma {:induction false} GroupStart(rs: seq<Request>)
    ensures Tabulates(map[], rs[..0]) && !Panics(rs[..0])
  {
    assert rs[..0] == [];
    NothingPanics();
  }

  lemma {:induction false} GroupStep(views: Views, rs: seq<Request>, k: nat)
    requires k < |rs| && rs[k].InRange() && Tabulates(views, rs[..k]) && !Panics(rs[..k])
    ensures Tabulates(NextViews(views, rs[k]), rs[..k + 1])
    ensures Overflows(views, rs[k]) <==> Panics(rs[..k + 1])
    ensures Overflows(views, rs[k]) ==> Panics(rs)
  {
    assert rs[..k + 1] == rs[..k] + [rs[k]];
    TabulatesStep(views, rs[..k], rs[k]);
    PanicsStep(views, rs[..k], rs[k]);
    if Overflows(views, rs[k]) { PanicsPrefix(rs, k + 1); }
  }

  /** The loop of RequestSummaries::new over a hash map of summaries updated in place. */
  method Group(rs: seq<Request>) returns (table: map<Operation, RequestSummary>, panics: bool)
    requires forall i :: 0 <= i < |rs| ==> rs[i].InRange()
    ensures fresh(table.Values) && Keyed(table)
    ensures panics <==> Panics(rs)
    ensures !panics ==> Tabulates(ViewsOf(table), rs)
  {
    table, panics := map[], false;
    GroupStart(rs);
    for k := 0 to |rs|
      invariant fresh(table.Values) && Keyed(table)
      invariant !panics && !Panics(rs[..k])
      invariant Tabulates(ViewsOf(table), rs[..k])
    {
      GroupStep(ViewsOf(table), rs, k);
      table, panics := Record(table, rs[k]);
      if panics { return; }
    }
    assert rs[..|rs|] == rs;
  }

  function Insert(out: seq<Summary>, s: Summary): (r: seq<Summary>)
    ensures forall x :: x in r <==> x == s || x in out
  {
    if out == [] || Rank(s.operation) < Rank(out[0].operation) then [s] + out
    else [out[0]] + Insert(out[1..], s)
  }

  lemma {:induction false} InsertOrdered(out: seq<Summary>, s: Summary)
    requires Ordered(out) && forall x :: x in out ==> x.operation != s.operation
    ensures Ordered(Insert(out, s))
  {
    if out == [] || Rank(s.operation) < Rank(out[0].operation) {
    } else {
      var rest := Insert(out[1..], s);
      InsertOrdered(out[1..], s);
      forall j | 0 <= j < |rest| ensures Rank(out[0].operation) < Rank(rest[j].operation) {
        assert rest[j] in rest;
      }
    }
  }

  lemma {:induction false} DrainedSummarizes(out: seq<Summary>, views: Views, rs: seq<Request>)
    requires Tabulates(views, rs) && Ordered(out)
    requires forall s :: s in out ==> s.operation in views && s == views[s.operation]
    requires forall op :: op in views ==> views[op] in out
    ensures Summarizes(out, rs)
  {
    forall i | 0 <= i < |out| ensures Occurs(out[i].operation, rs) && IsSummary(out[i], out[i].operation, rs) {
      assert out[i] in out;
    }
    forall op | Occurs(op, rs) ensures exists i :: 0 <= i < |out| && out[i].operation == op {
      assert views[op] in out && views[op].operation == op;
    }
  }

  /** RequestSummaries::new; the map is drained in an arbitrary order.  None when it panics. */
  method Summarize(rs: seq<Request>) returns (result: Option<seq<Summary>>)
    requires forall i :: 0 <= i < |rs| ==> rs[i].InRange()
    ensures result == None <==> Panics(rs)
    ensures result.Some? ==> Summarizes(result.value, rs)
  {
    var table, panics := Group(rs);
    if panics { return None; }
    ghost var views := ViewsOf(table);
    var out: seq<Summary> := [];
    var undrained := table.Keys;
    while undrained != {}
      invariant undrained <= table.Keys && Ordered(out) && views == ViewsOf(table)
      invariant forall s :: s in out ==> s.operation in table.Keys - undrained && s == views[s.operation]
      invariant forall op :: op in table.Keys - undrained ==> views[op] in out
      decreases undrained
    {
      var op :| op in undrained;
      var s := table[op].View();
      assert s == views[op] && s.operation == op;
      InsertOrdered(out, s);
      out := Insert(out, s);
      undrained := undrained - {op};
    }
    DrainedSummarizes(out, views, rs);
    result := Some(out);
  }

  // ----- the order of the summaries -----

  const OPERATIONS: seq<Operation> := [Copy, Delete, Get, Head, List, Put]

  ghost function Occurring(ops: seq<Operation>, rs: seq<Request>): (r: seq<Operation>)
    ensures forall op :: op in r <==> op in ops && Occurs(op, rs)
  {
    if ops == [] then [] else (if Occurs(ops[0], rs) then [ops[0]] else []) + Occurring(ops[1..], rs)
  }

  ghost function Listed(out: seq<Summary>): seq<Operation> {
    seq(|out|, i requires 0 <= i < |out| => out[i].operation)
  }

  ghost predicate Ascending(ops: seq<Operation>) {
    forall i, j :: 0 <= i < j < |ops| ==> Rank(ops[i]) < Rank(ops[j])
  }

  lemma {:induction false} OccurringAscends(ops: seq<Operation>, rs: seq<Request>)
    requires Ascending(ops)
    ensures Ascending(Occurring(ops, rs))
  {
    if ops == [] {
    } else {
      var rest := Occurring(ops[1..], rs);
      OccurringAscends(ops[1..], rs);
      forall j | 0 <= j < |rest| ensures Rank(ops[0]) < Rank(rest[j]) {
        assert rest[j] in rest;
        var k :| 0 <= k < |ops[1..]| && ops[1..][k] == rest[j];
        assert Rank(ops[0]) < Rank(ops[k + 1]);
      }
    }
  }

  lemma {:induction false} AscendingUnique(x: seq<Operation>, y: seq<Operation>)
    requires Ascending(x) && Ascending(y) && forall op :: op in x <==> op in y
    ensures x == y
  {
    assert x == [] || x[0] in y;
    assert y == [] || y[0] in x;
    if x == [] {
    } else {
      assert x == [x[0]] + x[1..] && y == [y[0]] + y[1..];
      assert x[0] == y[0];
      forall op ensures op in x[1..] <==> op in y[1..] {
        assert op in x[1..] ==> op in x && op != x[0];
        assert op in y[1..] ==> op in y && op != y[0];
      }
      AscendingUnique(x[1..], y[1..]);
    }
  }

  /** The summaries come in the order copy, delete, get, head, list, put, without the operations that
      do not occur. */
  lemma {:induction false} SummaryOrder(out: seq<Summary>, rs: seq<Request>)
    requires Summarizes(out, rs)
    ensures Listed(out) == Occurring([Copy, Delete, Get, Head, List, Put], rs)
  {
    var ops := Listed(out);
    forall op ensures op in ops <==> op in OPERATIONS && Occurs(op, rs) {
      assert OPERATIONS[Rank(op)] == op;
      if op in ops {
        var i :| 0 <= i < |ops| && ops[i] == op;
        assert Occurs(out[i].operation, rs);
      }
      if Occurs(op, rs) {
        var i :| 0 <= i < |out| && out[i].operation == op;
        assert ops[i] == op;
      }
    }
    OccurringAscends(OPERATIONS, rs);
    AscendingUnique(ops, Occurring(OPERATIONS, rs));
  }

  // ----- permuting the requests changes nothing -----

  /** Taking one element out of a sequence. */
  lemma {:induction false} TakeOut<T>(b: seq<T>, x: T) returns (p: seq<T>, q: seq<T>)
    requires x in multiset(b)
    ensures b == p + [x] + q && multiset(p + q) == multiset(b) - multiset{x}
  {
    var j :| 0 <= j < |b| && b[j] == x;
    p, q := b[..j], b[j + 1..];
    assert b == p + [x] + q;
    assert multiset(b) == multiset(p) + multiset{x} + multiset(q);
  }

  lemma {:induction false} ReadingsAppend(a: seq<Request>, b: seq<Request>, op: Operation, m: Metric)
    ensures Readings(a + b, op, m) == Readings(a, op, m) + Readings(b, op, m)
  {
    if b == [] {
      assert a + b == a;
    } else {
      var k := |b| - 1;
      var x, y, z := Readings(a, op, m), Readings(b[..k], op, m), Reading(b[k], op, m);
      calc {
        Readings(a + b, op, m);
        { assert a + b == a + b[..k] + [b[k]]; ReadingsSnoc(a + b[..k], b[k], op, m); }
        Readings(a + b[..k], op, m) + z;
        { ReadingsAppend(a, b[..k], op, m); }
        x + y + z;
        x + (y + z);
      }
    }
  }

  lemma {:induction false} ReadingsTakeOut(p: seq<Request>, x: Request, q: seq<Request>, op: Operation, m: Metric)
    ensures multiset(Readings(p + [x] + q, op, m)) == multiset(Readings(p + q, op, m)) + multiset(Reading(x, op, m))
  {
    ReadingsAppend(p, q, op, m);
    ReadingsAppend(p + [x], q, op, m);
    ReadingsSnoc(p, x, op, m);
  }

  lemma {:induction false} ReadingsPermute(a: seq<Request>, b: seq<Request>, op: Operation, m: Metric)
    requires multiset(a) == multiset(b)
    ensures multiset(Readings(a, op, m)) == multiset(Readings(b, op, m))
  {
    if a == [] {
      assert |b| == |multiset(b)|;
    } else {
      var k := |a| - 1;
      assert a == a[..k] + [a[k]];
      var p, q := TakeOut(b, a[k]);
      ReadingsPermute(a[..k], p + q, op, m);
      ReadingsTakeOut(p, a[k], q, op, m);
      ReadingsSnoc(a[..k], a[k], op, m);
    }
  }

  lemma {:induction false} SumAppend(a: seq<nat>, b: seq<nat>)
    ensures SumOf(a + b) == SumOf(a) + SumOf(b)
  {
    if b == [] {
      assert a + b == a;
    } else {
      var k := |b| - 1;
      SumAppend(a, b[..k]);
      SumSnoc(a + b[..k], b[k]);
      assert a + b == a + b[..k] + [b[k]];
    }
  }

  lemma {:induction false} SumPermute(a: seq<nat>, b: seq<nat>)
    requires multiset(a) == multiset(b)
    ensures SumOf(a) == SumOf(b)
  {
    if a == [] {
      assert |b| == |multiset(b)|;
    } else {
      var k := |a| - 1;
      assert a == a[..k] + [a[k]];
      var p, q := TakeOut(b, a[k]);
      SumPermute(a[..k], p + q);
      SumAppend(p, q);
      SumAppend(p + [a[k]], q);
      SumSnoc(p, a[k]);
    }
  }

  lemma {:induction false} StatsDetermined(
    s: Option<Stats>, t: Option<Stats>, a: seq<nat>, b: seq<nat>, largest: nat)
    requires multiset(a) == multiset(b) && IsStats(s, a, largest) && IsStats(t, b, largest)
    ensures s == t
  {
    assert |a| == |multiset(a)| == |b|;
    if a != [] {
      SumPermute(a, b);
      assert forall x :: x in a <==> x in multiset(a);
      assert forall x :: x in b <==> x in multiset(b);
    }
  }

  lemma {:induction false} SummaryDetermined(s: Summary, t: Summary, op: Operation, a: seq<Request>, b: seq<Request>)
    requires multiset(a) == multiset(b) && IsSummary(s, op, a) && IsSummary(t, op, b)
    ensures s == t
  {
    ReadingsPermute(a, b, op, Occurrence);
    ReadingsPermute(a, b, op, DurationOf);
    ReadingsPermute(a, b, op, SizeOf);
    assert |Readings(a, op, Occurrence)| == |multiset(Readings(a, op, Occurrence))|;
    assert |Readings(b, op, Occurrence)| == |multiset(Readings(b, op, Occurrence))|;
    StatsDetermined(s.durationStats, t.durationStats,
                    Readings(a, op, DurationOf), Readings(b, op, DurationOf), DURATION_MAX);
    StatsDetermined(s.sizeStats, t.sizeStats, Readings(a, op, SizeOf), Readings(b, op, SizeOf), USIZE_MAX);
  }

  /** Strictly ordered sequences with the same members are equal. */
  lemma {:induction false} OrderedUnique(x: seq<Summary>, y: seq<Summary>)
    requires Ordered(x) && Ordered(y) && forall s :: s in x <==> s in y
    ensures x == y
  {
    assert x == [] || x[0] in x;
    assert y == [] || y[0] in y;
    if x == [] {
    } else {
      assert x[0] in y && y[0] in x;
      assert x[0] == y[0];
      assert x == [x[0]] + x[1..] && y == [y[0]] + y[1..];
      forall s ensures s in x[1..] <==> s in y[1..] {
        assert s in x[1..] ==> s in x && s != x[0];
        assert s in y[1..] ==> s in y && s != y[0];
      }
      OrderedUnique(x[1..], y[1..]);
    }
  }

  lemma {:induction false} OccursPermute(op: Operation, a: seq<Request>, b: seq<Request>)
    requires multiset(a) == multiset(b) && Occurs(op, a)
    ensures Occurs(op, b)
  {
    var i :| 0 <= i < |a| && a[i].op == op;
    assert a[i] in multiset(b);
  }

  lemma {:induction false} PanicsPermute(a: seq<Request>, b: seq<Request>)
    requires multiset(a) == multiset(b) && Panics(a)
    ensures Panics(b)
  {
    var op :| DurationSum(a, op) > DURATION_MAX;
    ReadingsPermute(a, b, op, DurationOf);
    SumPermute(Readings(a, op, DurationOf), Readings(b, op, DurationOf));
    assert DurationSum(b, op) > DURATION_MAX;
  }

  /** The outcome depends only on which requests were made, not on their order. */
  lemma {:induction false} SummariesDetermined(x: seq<Summary>, a: seq<Request>, y: seq<Summary>, b: seq<Request>)
    requires multiset(a) == multiset(b)
    ensures Panics(a) <==> Panics(b)
    ensures Summarizes(x, a) && Summarizes(y, b) ==> x == y
  {
    if Panics(a) { PanicsPermute(a, b); }
    if Panics(b) { PanicsPermute(b, a); }
    if Summarizes(x, a) && Summarizes(y, b) {
      forall s | s in x ensures s in y { MemberOfOther(s, x, a, y, b); }
      forall s | s in y ensures s in x { MemberOfOther(s, y, b, x, a); }
      OrderedUnique(x, y);
    }
  }

  lemma {:induction false} MemberOfOther(s: Summary, x: seq<Summary>, a: seq<Request>, y: seq<Summary>, b: seq<Request>)
    requires multiset(a) == multiset(b) && Summarizes(x, a) && Summarizes(y, b) && s in x
    ensures s in y
  {
    OccursPermute(s.operation, a, b);
    var i :| 0 <= i < |y| && y[i].operation == s.operation;
    SummaryDetermined(s, y[i], s.operation, a, b);
  }

  // ----- the counts add up -----

  ghost function Counts(out: seq<Summary>): nat {
    if out == [] then 0 else Counts(out[..|out| - 1]) + out[|out| - 1].count
  }

  /** Number of requests whose operation is among those of out. */
  ghost function Covered(rs: seq<Request>, ops: set<Operation>): nat {
    if rs == [] then 0 else Covered(rs[..|rs| - 1], ops) + if rs[|rs| - 1].op in ops then 1 else 0
  }

  lemma {:induction false} CoveredSplit(rs: seq<Request>, ops: set<Operation>, op: Operation)
    requires op !in ops
    ensures Covered(rs, ops + {op}) == Covered(rs, ops) + |Readings(rs, op, Occurrence)|
  {
    if rs == [] {
    } else {
      CoveredSplit(rs[..|rs| - 1], ops, op);
    }
  }

  lemma {:induction false} CoveredNone(rs: seq<Request>)
    ensures Covered(rs, {}) == 0
  {
    if rs == [] {
    } else {
      CoveredNone(rs[..|rs| - 1]);
    }
  }

  lemma {:induction false} CoveredAll(rs: seq<Request>, ops: set<Operation>)
    requires forall i :: 0 <= i < |rs| ==> rs[i].op in ops
    ensures Covered(rs, ops) == |rs|
  {
    if rs == [] {
    } else {
      CoveredAll(rs[..|rs| - 1], ops);
    }
  }

  ghost function OperationsOf(out: seq<Summary>): (ops: set<Operation>)
    ensures forall s :: s in out ==> s.operation in ops
    ensures forall op :: op in ops ==> exists i :: 0 <= i < |out| && out[i].operation == op
  {
    if out == [] then {} else OperationsOf(out[..|out| - 1]) + {out[|out| - 1].operation}
  }

  lemma {:induction false} CountsAreCovered(out: seq<Summary>, rs: seq<Request>)
    requires Ordered(out)
    requires forall i :: 0 <= i < |out| ==> out[i].count == |Readings(rs, out[i].operation, Occurrence)|
    ensures Counts(out) == Covered(rs, OperationsOf(out))
  {
    if out == [] {
      CoveredNone(rs);
    } else {
      var n := |out| - 1;
      CountsAreCovered(out[..n], rs);
      CoveredSplit(rs, OperationsOf(out[..n]), out[n].operation);
    }
  }

  /** Every request is counted in exactly one summary. */
  lemma {:induction false} CountsAddUp(out: seq<Summary>, rs: seq<Request>)
    requires Summarizes(out, rs)
    ensures Counts(out) == |rs|
  {
    CountsAreCovered(out, rs);
    forall k | 0 <= k < |rs| ensures rs[k].op in OperationsOf(out) {
      assert Occurs(rs[k].op, rs);
      var i :| 0 <= i < |out| && out[i].operation == rs[k].op;
      assert out[i] in out;
    }
    CoveredAll(rs, OperationsOf(out));
  }

  // ----- the average column -----

  ghost function Mean(sum: nat, n: nat): real
    requires n > 0
  {
    sum as real / n as real
  }

  /** The displayed average divides by the number of requests of the operation. */
  ghost function ShownAverage(st: Stats, count: nat): real
    requires count > 0
  {
    Mean(st.sum, count)
  }

  /** Every request of the operation has a reading. */
  ghost predicate Recorded(r: Request, m: Metric) {
    match m case Occurrence => true case DurationOf => r.durationNanos > 0 case SizeOf => r.size.Some?
  }

  ghost predicate AllRecorded(rs: seq<Request>, op: Operation, m: Metric) {
    forall i :: 0 <= i < |rs| && rs[i].op == op ==> Recorded(rs[i], m)
  }

  ghost predicate AllZeroSizes(rs: seq<Request>, op: Operation) {
    forall i :: 0 <= i < |rs| && rs[i].op == op && rs[i].size.Some? ==> rs[i].size.value == 0
  }

  lemma {:induction false} AllRecordedIff(rs: seq<Request>, op: Operation, m: Metric)
    ensures |Readings(rs, op, m)| <= |Readings(rs, op, Occurrence)|
    ensures |Readings(rs, op, m)| == |Readings(rs, op, Occurrence)| <==> AllRecorded(rs, op, m)
  {
    if rs == [] {
    } else {
      var k := |rs| - 1;
      AllRecordedIff(rs[..k], op, m);
      AllRecordedStep(rs, op, m);
    }
  }

  lemma {:induction false} AllRecordedStep(rs: seq<Request>, op: Operation, m: Metric)
    requires rs != []
    ensures var r := rs[|rs| - 1];
      AllRecorded(rs, op, m) <==> AllRecorded(rs[..|rs| - 1], op, m) && (r.op == op ==> Recorded(r, m))
  {
  }

  lemma {:induction false} ZeroSumIff(rs: seq<Request>, op: Operation)
    ensures SumOf(Readings(rs, op, SizeOf)) == 0 <==> AllZeroSizes(rs, op)
  {
    if rs == [] {
    } else {
      var k := |rs| - 1;
      ZeroSumIff(rs[..k], op);
      SumAppend(Readings(rs[..k], op, SizeOf), Reading(rs[k], op, SizeOf));
      SumOne(rs[k], op, SizeOf);
      AllZeroStep(rs, op);
    }
  }

  lemma {:induction false} SumOne(r: Request, op: Operation, m: Metric)
    ensures SumOf(Reading(r, op, m)) == if Reading(r, op, m) == [] then 0 else Reading(r, op, m)[0]
  {
    if Reading(r, op, m) != [] { SumSnoc([], Reading(r, op, m)[0]); }
  }

  lemma {:induction false} AllZeroStep(rs: seq<Request>, op: Operation)
    requires rs != []
    ensures var r := rs[|rs| - 1];
      AllZeroSizes(rs, op) <==>
        AllZeroSizes(rs[..|rs| - 1], op) && (r.op == op && r.size.Some? ==> r.size.value == 0)
  {
  }

  lemma {:induction false} PositiveDurations(rs: seq<Request>, op: Operation)
    ensures SumOf(Readings(rs, op, DurationOf)) >= |Readings(rs, op, DurationOf)|
  {
    if rs == [] {
    } else {
      var k := |rs| - 1;
      PositiveDurations(rs[..k], op);
      SumAppend(Readings(rs[..k], op, DurationOf), Reading(rs[k], op, DurationOf));
      SumOne(rs[k], op, DurationOf);
    }
  }

  /** x / n and y / m, for x at most y and m at most n, agree only when nothing was lost. */
  lemma {:induction false} QuotientsEqualIff(x: nat, n: nat, y: nat, m: nat)
    requires 0 < m <= n && x <= y
    ensures Mean(x, n) == Mean(y, m) <==> x == y && (m == n || y == 0)
  {
    var a, b, c, d := x as real, n as real, y as real, m as real;
    assert (a / b) * b == a && (c / d) * d == c;
    if a / b == c / d {
      var r := c / d;
      assert r >= 0.0;
      assert r * (b - d) == a - c <= 0.0;
      assert r * (b - d) >= 0.0;
    }
  }

  /** The sum shown for sizes is their sum modulo 2^64. */
  lemma {:induction false} SizesWrap(s: Summary, rs: seq<Request>)
    requires IsSummary(s, s.operation, rs) && s.sizeStats.Some?
    ensures s.sizeStats.value.sum <= USIZE_MAX
    ensures (SumOf(Readings(rs, s.operation, SizeOf)) - s.sizeStats.value.sum) % (USIZE_MAX + 1) == 0
  {
  }

  lemma {:induction false} WrappedIff(sum: nat, largest: nat)
    ensures Wrapped(sum, largest) <= sum && (Wrapped(sum, largest) == sum <==> sum <= largest)
  {
  }

  lemma {:induction false} SizeFacts(s: Summary, rs: seq<Request>)
    requires IsSummary(s, s.operation, rs) && s.sizeStats.Some?
    ensures var sizes := Readings(rs, s.operation, SizeOf);
      && 0 < |sizes| <= s.count && s.sizeStats.value.sum == Wrapped(SumOf(sizes), USIZE_MAX) <= SumOf(sizes)
      && (s.sizeStats.value.sum == SumOf(sizes) <==> SumOf(sizes) <= USIZE_MAX)
      && (|sizes| == s.count <==> AllRecorded(rs, s.operation, SizeOf))
  {
    AllRecordedIff(rs, s.operation, SizeOf);
    WrappedIff(SumOf(Readings(rs, s.operation, SizeOf)), USIZE_MAX);
  }

  /** It is the mean of the recorded sizes exactly when their sum fits in 64 bits and every request of
      the operation recorded a size, or all recorded sizes are zero. */
  lemma {:induction false} AverageIsMeanIff(s: Summary, rs: seq<Request>)
    requires IsSummary(s, s.operation, rs) && s.sizeStats.Some?
    ensures var sizes := Readings(rs, s.operation, SizeOf);
      && 0 < |sizes| <= s.count
      && (ShownAverage(s.sizeStats.value, s.count) == Mean(SumOf(sizes), |sizes|)
          <==> (SumOf(sizes) <= USIZE_MAX && AllRecorded(rs, s.operation, SizeOf)) || AllZeroSizes(rs, s.operation))
  {
    var sizes := Readings(rs, s.operation, SizeOf);
    SizeFacts(s, rs);
    ZeroSumIff(rs, s.operation);
    QuotientsEqualIff(s.sizeStats.value.sum, s.count, SumOf(sizes), |sizes|);
  }

  lemma {:induction false} UnwrappedSum(st: Option<Stats>, vs: seq<nat>)
    requires IsStats(st, vs, DURATION_MAX) && SumOf(vs) <= DURATION_MAX
    ensures st.Some? ==> st.value.sum == SumOf(vs)
  {
  }

  lemma {:induction false} DurationFacts(s: Summary, rs: seq<Request>)
    requires IsSummary(s, s.operation, rs) && s.durationStats.Some? && !Panics(rs)
    ensures var durations := Readings(rs, s.operation, DurationOf);
      && 0 < |durations| <= s.count && s.durationStats.value.sum == SumOf(durations) > 0
      && (|durations| == s.count <==> AllRecorded(rs, s.operation, DurationOf))
  {
    assert DurationSum(rs, s.operation) <= DURATION_MAX;
    UnwrappedSum(s.durationStats, Readings(rs, s.operation, DurationOf));
    AllRecordedIff(rs, s.operation, DurationOf);
    PositiveDurations(rs, s.operation);
  }

  /** A recorded duration is never zero, so the average duration is the mean exactly when every
      request of the operation recorded one. */
  lemma {:induction false} DurationAverageIsMeanIff(s: Summary, rs: seq<Request>)
    requires IsSummary(s, s.operation, rs) && s.durationStats.Some? && !Panics(rs)
    ensures var durations := Readings(rs, s.operation, DurationOf);
      && 0 < |durations| <= s.count
      && (ShownAverage(s.durationStats.value, s.count) == Mean(SumOf(durations), |durations|)
          <==> AllRecorded(rs, s.operation, DurationOf))
  {
    var durations := Readings(rs, s.operation, DurationOf);
    DurationFacts(s, rs);
    QuotientsEqualIff(s.durationStats.value.sum, s.count, SumOf(durations), |durations|);
  }

  lemma {:induction false} ReadingsOfTwo(a: Request, b: Request, op: Operation, m: Metric)
    ensures Readings([a, b], op, m) == Reading(a, op, m) + Reading(b, op, m)
  {
    ReadingsSnoc([], a, op, m);
    ReadingsSnoc([a], b, op, m);
    assert [] + [a] == [a] && [a] + [b] == [a, b];
  }

  lemma {:induction false} SmallUnwrapped(v: nat, largest: nat)
    requires v <= largest
    ensures Wrapped(v, largest) == v
  {
  }

  lemma {:induction false} StatsOfOne(v: nat, largest: nat)
    requires v <= largest
    ensures IsStats(Some(Stats(v, v, v)), [v], largest)
  {
    SumSnoc([], v);
    SmallUnwrapped(v, largest);
    assert [] + [v] == [v];
  }

  lemma {:induction false} StatsOfTwice(v: nat, largest: nat)
    requires 2 * v <= largest
    ensures IsStats(Some(Stats(v, v, 2 * v)), [v, v], largest)
  {
    SumSnoc([], v);
    SumSnoc([v], v);
    SmallUnwrapped(2 * v, largest);
    assert [] + [v] == [v] && [v] + [v] == [v, v];
  }

  /** A plain upload of 100 bytes and a multipart upload, which records no size: the average size
      shown is half of the minimum. */
  lemma {:induction false} SizeAverageBelowMinimum() returns (s: Summary, rs: seq<Request>)
    ensures rs == [Request(Put, 8, Some(100)), Request(Put, 8, None)] && IsSummary(s, Put, rs)
    ensures s.sizeStats.Some? && s.sizeStats.value.min == 100 && ShownAverage(s.sizeStats.value, s.count) == 50.0
  {
    var a, b := Request(Put, 8, Some(100)), Request(Put, 8, None);
    rs := [a, b];
    s := Summary(Put, 2, Some(Stats(8, 8, 16)), Some(Stats(100, 100, 100)));
    ReadingsOfTwo(a, b, Put, Occurrence);
    ReadingsOfTwo(a, b, Put, DurationOf);
    ReadingsOfTwo(a, b, Put, SizeOf);
    assert [8] + [8] == [8, 8] && [100] + [] == [100];
    StatsOfTwice(8, DURATION_MAX);
    StatsOfOne(100, USIZE_MAX);
  }

  /** Two listings, one of which is never polled and so records no duration: the average duration
      shown is half of the minimum. */
  lemma {:induction false} DurationAverageBelowMinimum() returns (s: Summary, rs: seq<Request>)
    ensures rs == [Request(List, 8, None), Request(List, 0, None)] && IsSummary(s, List, rs)
    ensures s.durationStats.Some? && s.durationStats.value.min == 8
    ensures ShownAverage(s.durationStats.value, s.count) == 4.0
  {
    var a, b := Request(List, 8, None), Request(List, 0, None);
    rs := [a, b];
    s := Summary(List, 2, Some(Stats(8, 8, 8)), None);
    ReadingsOfTwo(a, b, List, Occurrence);
    ReadingsOfTwo(a, b, List, DurationOf);
    ReadingsOfTwo(a, b, List, SizeOf);
    assert [8] + [] == [8];
    StatsOfOne(8, DURATION_MAX);
  }
}
