/** select_filters_greedy (ml/knapsack.py:52-72): rank by value per byte, take what fits. */
module GreedyKnapsack {
  import opened Candidates
  import opened ExactBounds
  import opened StableRank

  function Ratio(c: Candidate): real {
    c.value / (Max(c.weight, 1) as real)
  }

  function Ratios(cs: seq<Candidate>): seq<real> {
    seq(|cs|, i requires 0 <= i < |cs| => Ratio(cs[i]))
  }

  /** The candidate positions in the order greedy tries them. */
  function Order(cs: seq<Candidate>): (r: seq<nat>)
    ensures |r| == |cs| && InRange(r, |cs|)
    ensures forall y: nat :: y in r <==> y < |cs|
  {
    Rank(Ratios(cs), |cs|)
  }

  /** Budget left after the first k candidates of r. */
  ghost function Left(cs: seq<Candidate>, r: seq<nat>, k: nat, budget: int): int
    requires k <= |r| && InRange(r, |cs|)
  {
    if k == 0 then budget else
      var left := Left(cs, r, k - 1, budget);
      if cs[r[k - 1]].weight <= left then left - cs[r[k - 1]].weight else left
  }

  ghost function Taken(cs: seq<Candidate>, r: seq<nat>, k: nat, budget: int): (picks: seq<nat>)
    requires k <= |r| && InRange(r, |cs|)
    ensures InRange(picks, |cs|)
  {
    if k == 0 then []
    else if cs[r[k - 1]].weight <= Left(cs, r, k - 1, budget) then Taken(cs, r, k - 1, budget) + [r[k - 1]]
    else Taken(cs, r, k - 1, budget)
  }

  ghost function GreedyPicks(cs: seq<Candidate>, budget: int): (picks: seq<nat>)
    ensures InRange(picks, |cs|)
  {
    if budget <= 0 then [] else Taken(cs, Order(cs), |cs|, budget)
  }

  ghost function GreedySet(cs: seq<Candidate>, budget: int): set<nat> {
    ToSet(GreedyPicks(cs, budget))
  }

  method SelectFiltersGreedy(cs: seq<Candidate>, budget: int) returns (selected: seq<string>)
    ensures selected == NamesAt(cs, GreedyPicks(cs, budget))
    ensures var picks := GreedyPicks(cs, budget);
      |selected| == |picks| && forall k :: 0 <= k < |picks| ==> selected[k] == cs[picks[k]].name
  {
    if cs == [] || budget <= 0 { return []; }
    var ranked := Order(cs);
    selected := [];
    var remaining := budget;
    for k := 0 to |ranked|
      invariant remaining == Left(cs, ranked, k, budget)
      invariant selected == NamesAt(cs, Taken(cs, ranked, k, budget))
    {
      var c := cs[ranked[k]];
      if c.weight <= remaining {
        selected := selected + [c.name];
        remaining := remaining - c.weight;
      }
    }
  }

  // ----- what greedy takes -----

  ghost predicate FitsAt(cs: seq<Candidate>, r: seq<nat>, j: nat, budget: int)
    requires j < |r| && InRange(r, |cs|)
  {
    cs[r[j]].weight <= Left(cs, r, j, budget)
  }

  /** A candidate is taken exactly when it fitted at its turn. */
  lemma {:induction false} TakenIff(cs: seq<Candidate>, r: seq<nat>, k: nat, budget: int, j: nat)
    requires InRange(r, |cs|) && Distinct(r) && k <= |r| && j < |r|
    ensures r[j] in Taken(cs, r, k, budget) <==> j < k && FitsAt(cs, r, j, budget)
  {
    if k == 0 {
    } else {
      TakenIff(cs, r, k - 1, budget, j);
    }
  }

  /** What is left is the budget less the bytes taken, and never negative. */
  lemma {:induction false} LeftIsUnspent(cs: seq<Candidate>, r: seq<nat>, k: nat, budget: int)
    requires InRange(r, |cs|) && Distinct(r) && k <= |r| && budget >= 0
    ensures 0 <= Left(cs, r, k, budget) == budget - Bytes(cs, ToSet(Taken(cs, r, k, budget)))
  {
    if k == 0 {
      assert ToSet(Taken(cs, r, k, budget)) == {};
      TotalZero(Weights(cs), {}, |cs|);
    } else {
      LeftIsUnspent(cs, r, k - 1, budget);
      var was, x := ToSet(Taken(cs, r, k - 1, budget)), r[k - 1];
      if FitsAt(cs, r, k - 1, budget) {
        TakenIff(cs, r, k - 1, budget, k - 1);
        TotalInsert(Weights(cs), was, x, |cs|);
        assert ToSet(Taken(cs, r, k, budget)) == was + {x};
      }
    }
  }

  lemma {:induction false} OrderUnspent(cs: seq<Candidate>, budget: int, k: nat)
    requires k <= |cs| && budget >= 0
    ensures 0 <= Left(cs, Order(cs), k, budget) == budget - Bytes(cs, ToSet(Taken(cs, Order(cs), k, budget)))
  {
    RankIsRanked(Ratios(cs), |cs|);
    LeftIsUnspent(cs, Order(cs), k, budget);
  }

  lemma {:induction false} GreedyIsFeasible(cs: seq<Candidate>, budget: int)
    ensures GreedySet(cs, budget) <= Indices(|cs|)
    ensures Bytes(cs, GreedySet(cs, budget)) <= Max(budget, 0)
  {
    if budget <= 0 {
      assert GreedySet(cs, budget) == {};
      TotalZero(Weights(cs), {}, |cs|);
    } else {
      OrderUnspent(cs, budget, |cs|);
    }
  }

  // ----- greedy is determined -----

  /** c is worth more per byte than d, counting at least one byte each. */
  ghost predicate Denser(c: Candidate, d: Candidate) {
    c.value * Max(d.weight, 1) as real > d.value * Max(c.weight, 1) as real
  }

  ghost predicate Precedes(cs: seq<Candidate>, i: nat, j: nat)
    requires i < |cs| && j < |cs|
  {
    Denser(cs[i], cs[j]) || (!Denser(cs[j], cs[i]) && i < j)
  }

  ghost function Earlier(cs: seq<Candidate>, picks: seq<nat>, i: nat): set<nat>
    requires InRange(picks, |cs|) && i < |cs|
  {
    set j | j in picks && Precedes(cs, j, i)
  }

  /** The picks come in order of density, none twice, and hold exactly the candidates that fit in what
      the picks before them leave of the budget. */
  ghost predicate GreedyOutcome(cs: seq<Candidate>, budget: int, picks: seq<nat>) {
    && InRange(picks, |cs|)
    && (forall a, b :: 0 <= a < b < |picks| ==> Precedes(cs, picks[a], picks[b]))
    && (forall i: nat :: i < |cs| ==>
          (i in picks <==> cs[i].weight <= budget - Bytes(cs, Earlier(cs, picks, i))))
  }

  lemma {:induction false} DivisionOrder(x: real, a: real, y: real, b: real)
    requires a > 0.0 && b > 0.0
    ensures x / a > y / b <==> x * b > y * a
  {
    var p, q := x / a, y / b;
    assert x == p * a && y == q * b;
    assert x * b == p * (a * b) && y * a == q * (a * b);
    ProductOrder(p, q, a * b);
  }

  lemma {:induction false} ProductOrder(p: real, q: real, m: real)
    requires m > 0.0
    ensures p > q <==> p * m > q * m
  {
  }

  lemma {:induction false} RanksBeforeIff(cs: seq<Candidate>, i: nat, j: nat)
    requires i < |cs| && j < |cs|
    ensures RanksBefore(Ratios(cs), i, j) <==> Precedes(cs, i, j)
  {
    var a, b := Max(cs[i].weight, 1) as real, Max(cs[j].weight, 1) as real;
    DivisionOrder(cs[i].value, a, cs[j].value, b);
    DivisionOrder(cs[j].value, b, cs[i].value, a);
  }

  lemma {:induction false} TakenRanked(cs: seq<Candidate>, r: seq<nat>, k: nat, budget: int)
    requires Ranked(Ratios(cs), r) && k <= |r|
    ensures Ranked(Ratios(cs), Taken(cs, r, k, budget))
    ensures forall x :: x in Taken(cs, r, k, budget) ==> x in r[..k]
  {
    if k == 0 {
    } else {
      TakenRanked(cs, r, k - 1, budget);
      var was := Taken(cs, r, k - 1, budget);
      assert r[..k] == r[..k - 1] + [r[k - 1]];
      forall a | 0 <= a < |was| ensures RanksBefore(Ratios(cs), was[a], r[k - 1]) {
        assert was[a] in r[..k - 1];
      }
    }
  }

  /** What was taken before rank position j is what was picked and precedes the candidate there. */
  lemma {:induction false} TakenBefore(cs: seq<Candidate>, budget: int, j: nat)
    requires j < |cs|
    ensures var r := Order(cs);
      Earlier(cs, Taken(cs, r, |cs|, budget), r[j]) == ToSet(Taken(cs, r, j, budget))
  {
    var r := Order(cs);
    var picks, before := Taken(cs, r, |cs|, budget), Taken(cs, r, j, budget);
    RankIsRanked(Ratios(cs), |cs|);
    forall m: nat | m < |cs| ensures r[m] in Earlier(cs, picks, r[j]) <==> r[m] in before {
      TakenIff(cs, r, |cs|, budget, m);
      TakenIff(cs, r, j, budget, m);
      RanksBeforeIff(cs, r[m], r[j]);
      assert if m < j then RanksBefore(Ratios(cs), r[m], r[j])
             else m == j || RanksBefore(Ratios(cs), r[j], r[m]);
    }
    forall x ensures x in Earlier(cs, picks, r[j]) <==> x in before {
      if x in picks || x in before { assert x in r; }
    }
  }

  lemma {:induction false} GreedyIsOutcome(cs: seq<Candidate>, budget: int)
    requires budget > 0
    ensures GreedyOutcome(cs, budget, GreedyPicks(cs, budget))
  {
    var r, picks := Order(cs), GreedyPicks(cs, budget);
    RankIsRanked(Ratios(cs), |cs|);
    TakenRanked(cs, r, |cs|, budget);
    forall a, b | 0 <= a < b < |picks| ensures Precedes(cs, picks[a], picks[b]) {
      RanksBeforeIff(cs, picks[a], picks[b]);
    }
    forall i: nat | i < |cs| ensures i in picks <==> cs[i].weight <= budget - Bytes(cs, Earlier(cs, picks, i)) {
      assert i in r;
      var j :| 0 <= j < |r| && r[j] == i;
      TakenIff(cs, r, |cs|, budget, j);
      LeftIsUnspent(cs, r, j, budget);
      TakenBefore(cs, budget, j);
    }
  }

  lemma {:induction false} OutcomesAgree(cs: seq<Candidate>, budget: int, p: seq<nat>, q: seq<nat>, k: nat)
    requires GreedyOutcome(cs, budget, p) && GreedyOutcome(cs, budget, q) && k <= |cs|
    ensures forall m: nat :: m < k ==> (Order(cs)[m] in p <==> Order(cs)[m] in q)
  {
    var r := Order(cs);
    if k == 0 {
    } else {
      OutcomesAgree(cs, budget, p, q, k - 1);
      RankIsRanked(Ratios(cs), |cs|);
      var x := r[k - 1];
      forall y: nat ensures y in Earlier(cs, p, x) <==> y in Earlier(cs, q, x) {
        if y < |cs| && Precedes(cs, y, x) {
          assert y in r;
          var m :| 0 <= m < |r| && r[m] == y;
          RanksBeforeIff(cs, y, x);
          assert m < k - 1;
        }
      }
      assert Earlier(cs, p, x) == Earlier(cs, q, x);
    }
  }

  lemma {:induction false} OutcomeRanked(cs: seq<Candidate>, budget: int, p: seq<nat>)
    requires GreedyOutcome(cs, budget, p)
    ensures Ranked(Ratios(cs), p)
  {
    forall a, b | 0 <= a < b < |p| ensures RanksBefore(Ratios(cs), p[a], p[b]) {
      RanksBeforeIff(cs, p[a], p[b]);
    }
  }

  /** The list greedy returns is the one outcome: no other list has these properties. */
  lemma {:induction false} GreedyPicksIff(cs: seq<Candidate>, budget: int, picks: seq<nat>)
    ensures picks == GreedyPicks(cs, budget) <==> if budget > 0 then GreedyOutcome(cs, budget, picks) else picks == []
  {
    if budget > 0 {
      var greedy := GreedyPicks(cs, budget);
      GreedyIsOutcome(cs, budget);
      if GreedyOutcome(cs, budget, picks) {
        OutcomesAgree(cs, budget, picks, greedy, |cs|);
        OutcomeRanked(cs, budget, picks);
        OutcomeRanked(cs, budget, greedy);
        forall x ensures x in picks <==> x in greedy {
          if x in picks || x in greedy {
            assert x in Order(cs);
            var m :| 0 <= m < |cs| && Order(cs)[m] == x;
          }
        }
        RankIsUnique(Ratios(cs), picks, greedy);
      }
    }
  }

  /** Rank position k holds the first candidate that did not fit. */
  ghost predicate FirstRejected(cs: seq<Candidate>, budget: int, k: nat) {
    && k < |cs| && !FitsAt(cs, Order(cs), k, budget)
    && forall j :: 0 <= j < k ==> FitsAt(cs, Order(cs), j, budget)
  }

  // ----- the fractional bound -----

  /** What `bytes` bytes are worth at rho per byte. */
  ghost function Worth(rho: real, bytes: int): real {
    rho * bytes as real
  }

  lemma {:induction false} WorthAdds(rho: real, a: int, b: int)
    ensures Worth(rho, a + b) == Worth(rho, a) + Worth(rho, b)
  {
  }

  lemma {:induction false} WorthMonotone(rho: real, a: int, b: int)
    requires rho >= 0.0 && a <= b
    ensures Worth(rho, a) <= Worth(rho, b)
  {
    ScaleBy(rho, a as real, b as real);
  }

  /** Value in excess of rho per byte. */
  ghost function Excess(c: Candidate, rho: real): real {
    c.value - Worth(rho, c.weight)
  }

  ghost function Net(cs: seq<Candidate>, rho: real): seq<real> {
    seq(|cs|, i requires 0 <= i < |cs| => Excess(cs[i], rho))
  }

  lemma {:induction false} NetSum(cs: seq<Candidate>, rho: real, s: set<nat>, n: nat)
    requires n <= |cs|
    ensures Sum(Net(cs, rho), s, n) == Sum(Values(cs), s, n) - Worth(rho, Total(Weights(cs), s, n))
  {
    if n == 0 {
    } else {
      NetSum(cs, rho, s, n - 1);
      WorthAdds(rho, Total(Weights(cs), s, n - 1), cs[n - 1].weight);
    }
  }

  /** t against the prefix p taken before the first rejection, and the rest g - p of what greedy took. */
  lemma {:induction false} Exchange(vs: seq<real>, net: seq<real>, t: set<nat>, p: set<nat>, g: set<nat>, n: nat)
    requires n <= |vs| == |net| && p <= g
    requires forall i: nat :: i < n ==> vs[i] >= 0.0
    requires forall i: nat :: i < n && i in p ==> net[i] >= 0.0
    requires forall i: nat :: i < n && i !in p ==> net[i] <= 0.0 || (net[i] == vs[i] && i in g)
    ensures Sum(net, t, n) <= Sum(net, p, n) + Sum(vs, g, n) - Sum(vs, p, n)
  {
    if n == 0 {
    } else {
      Exchange(vs, net, t, p, g, n - 1);
    }
  }

  lemma {:induction false} RatioScales(c: Candidate)
    requires c.weight >= 1
    ensures Worth(Ratio(c), c.weight) == c.value
  {
  }

  lemma {:induction false} ScaleBy(rho: real, a: real, b: real)
    requires rho >= 0.0 && a <= b
    ensures rho * a <= rho * b
  {
    assert rho * (b - a) >= 0.0;
  }

  lemma {:induction false} ExcessSign(c: Candidate, rho: real)
    requires c.weight >= 0 && c.value >= 0.0
    ensures c.weight == 0 ==> Excess(c, rho) == c.value
    ensures c.weight >= 1 && Ratio(c) >= rho ==> Excess(c, rho) >= 0.0
    ensures c.weight >= 1 && Ratio(c) <= rho ==> Excess(c, rho) <= 0.0
  {
    if c.weight >= 1 {
      RatioScales(c);
      if Ratio(c) >= rho { ScaleBy(c.weight as real, rho, Ratio(c)); }
      if Ratio(c) <= rho { ScaleBy(c.weight as real, Ratio(c), rho); }
    }
  }

  /** Candidates tried before the first rejected one were taken and have at least its ratio; later
      ones have at most its ratio, and were taken if they weigh nothing. */
  lemma {:induction false} AroundRejection(cs: seq<Candidate>, budget: int, k: nat, j: nat)
    requires budget > 0 && FirstRejected(cs, budget, k) && j < |cs|
    ensures var r := Order(cs);
      && (r[j] in Taken(cs, r, k, budget) <==> j < k)
      && (j < k ==> r[j] in GreedySet(cs, budget) && Ratios(cs)[r[j]] >= Ratios(cs)[r[k]])
      && (j >= k ==> Ratios(cs)[r[j]] <= Ratios(cs)[r[k]])
      && (cs[r[j]].weight == 0 ==> r[j] in GreedySet(cs, budget))
  {
    var r, keys := Order(cs), Ratios(cs);
    RankIsRanked(keys, |cs|);
    TakenIff(cs, r, k, budget, j);
    TakenIff(cs, r, |cs|, budget, j);
    LeftIsUnspent(cs, r, j, budget);
    if j < k {
      assert RanksBefore(keys, r[j], r[k]);
    } else if k < j {
      assert RanksBefore(keys, r[k], r[j]);
    }
  }

  lemma {:induction false} NetSigns(cs: seq<Candidate>, budget: int, k: nat, i: nat)
    requires budget > 0 && FirstRejected(cs, budget, k) && i < |cs| && cs[i].value >= 0.0 && cs[i].weight >= 0
    ensures var r := Order(cs); var net := Excess(cs[i], Ratio(cs[r[k]]));
      if i in Taken(cs, r, k, budget) then i in GreedySet(cs, budget) && net >= 0.0
      else net <= 0.0 || (net == cs[i].value && i in GreedySet(cs, budget))
  {
    var r := Order(cs);
    assert i in r;
    var j :| 0 <= j < |r| && r[j] == i;
    AroundRejection(cs, budget, k, j);
    assert Ratios(cs)[i] == Ratio(cs[i]) && Ratios(cs)[r[k]] == Ratio(cs[r[k]]);
    ExcessSign(cs[i], Ratio(cs[r[k]]));
  }

  lemma {:induction false} NonNegativeRatio(c: Candidate)
    requires c.value >= 0.0
    ensures Ratio(c) >= 0.0
  {
  }

  lemma {:induction false} ExchangeAtRejection(cs: seq<Candidate>, budget: int, t: set<nat>, k: nat)
    requires budget > 0 && FirstRejected(cs, budget, k)
    requires forall i :: 0 <= i < |cs| ==> cs[i].value >= 0.0 && cs[i].weight >= 0
    ensures var net, p := Net(cs, Ratio(cs[Order(cs)[k]])), ToSet(Taken(cs, Order(cs), k, budget));
      Sum(net, t, |cs|) <= Sum(net, p, |cs|) + Value(cs, GreedySet(cs, budget)) - Value(cs, p)
  {
    var r, g := Order(cs), GreedySet(cs, budget);
    var p, net := ToSet(Taken(cs, r, k, budget)), Net(cs, Ratio(cs[r[k]]));
    forall i: nat | i < |cs|
      ensures i in p ==> i in g && net[i] >= 0.0
      ensures i !in p ==> net[i] <= 0.0 || (net[i] == Values(cs)[i] && i in g)
    {
      NetSigns(cs, budget, k, i);
    }
    Exchange(Values(cs), net, t, p, g, |cs|);
  }

  lemma {:induction false} BoundAtRate(
    cs: seq<Candidate>, rho: real, t: set<nat>, p: set<nat>, g: set<nat>, budget: int, left: int)
    requires rho >= 0.0 && Bytes(cs, t) <= budget && left == budget - Bytes(cs, p)
    requires Sum(Net(cs, rho), t, |cs|) <= Sum(Net(cs, rho), p, |cs|) + Value(cs, g) - Value(cs, p)
    ensures Value(cs, t) <= Value(cs, g) + Worth(rho, left)
  {
    NetSum(cs, rho, t, |cs|);
    NetSum(cs, rho, p, |cs|);
    WorthMonotone(rho, Bytes(cs, t), budget);
    WorthAdds(rho, left, Bytes(cs, p));
  }

  /** The part of the rejected candidate that would still have fitted is worth no more than all of it. */
  lemma {:induction false} PartOfRejected(cs: seq<Candidate>, budget: int, k: nat)
    requires FirstRejected(cs, budget, k)
    requires cs[Order(cs)[k]].value >= 0.0 && Left(cs, Order(cs), k, budget) >= 0
    ensures Worth(Ratio(cs[Order(cs)[k]]), Left(cs, Order(cs), k, budget)) <= cs[Order(cs)[k]].value
  {
    var c := cs[Order(cs)[k]];
    NonNegativeRatio(c);
    RatioScales(c);
    WorthMonotone(Ratio(c), Left(cs, Order(cs), k, budget), c.weight);
  }

  /** Every byte-feasible selection is worth at most greedy's selection plus the part of the first
      rejected candidate that would still have fitted, and so at most greedy plus that candidate. */
  lemma {:induction false} GreedyFractionalBound(cs: seq<Candidate>, budget: int, t: set<nat>, k: nat)
    requires budget > 0 && t <= Indices(|cs|) && Bytes(cs, t) <= budget
    requires forall i :: 0 <= i < |cs| ==> cs[i].value >= 0.0 && cs[i].weight >= 0
    requires FirstRejected(cs, budget, k)
    ensures var c := cs[Order(cs)[k]];
      Value(cs, t) <= Value(cs, GreedySet(cs, budget)) + Worth(Ratio(c), Left(cs, Order(cs), k, budget))
                   <= Value(cs, GreedySet(cs, budget)) + c.value
  {
    var r := Order(cs);
    OrderUnspent(cs, budget, k);
    NonNegativeRatio(cs[r[k]]);
    ExchangeAtRejection(cs, budget, t, k);
    BoundAtRate(cs, Ratio(cs[r[k]]), t, ToSet(Taken(cs, r, k, budget)), GreedySet(cs, budget), budget,
                Left(cs, r, k, budget));
    PartOfRejected(cs, budget, k);
  }

  lemma {:induction false} SumSubset(f: seq<real>, s: set<nat>, t: set<nat>, n: nat)
    requires n <= |f| && forall i: nat :: i < n ==> f[i] >= 0.0
    requires forall i: nat :: i < n && i in s ==> i in t
    ensures Sum(f, s, n) <= Sum(f, t, n)
  {
    if n == 0 {
    } else {
      SumSubset(f, s, t, n - 1);
    }
  }

  /** When everything fitted, greedy is optimal. */
  lemma {:induction false} GreedyOptimalWithoutRejection(cs: seq<Candidate>, budget: int, t: set<nat>)
    requires budget > 0 && t <= Indices(|cs|)
    requires forall i :: 0 <= i < |cs| ==> cs[i].value >= 0.0
    requires forall k :: 0 <= k < |cs| ==> FitsAt(cs, Order(cs), k, budget)
    ensures Value(cs, t) <= Value(cs, GreedySet(cs, budget))
  {
    var r := Order(cs);
    RankIsRanked(Ratios(cs), |cs|);
    forall i: nat | i < |cs| ensures i in GreedySet(cs, budget) {
      assert i in r;
      assert i in r;
      var j :| 0 <= j < |r| && r[j] == i;
      TakenIff(cs, r, |cs|, budget, j);
    }
    SumSubset(Values(cs), t, GreedySet(cs, budget), |cs|);
  }
}
