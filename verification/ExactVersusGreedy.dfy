/** Exact works in rounded KB, greedy in bytes.  Exactly which weights make exact at least as good
    as greedy for every prediction and every budget (ml/knapsack.py:12-72).
 */
module ExactVersusGreedy {
  import opened Candidates
  import opened ExactKnapsack
  import opened ExactBounds
  import opened StableRank
  import opened GreedyKnapsack

  /** Exact is at least as good as every selection within the byte budget. */
  ghost predicate ByteOptimal(ws: seq<int>) {
    forall cs: seq<Candidate>, b: int, t: set<nat> ::
      Weights(cs) == ws && b > 0 && t <= Indices(|cs|) && Bytes(cs, t) <= b ==>
      Value(cs, ExactSet(cs, b)) >= Value(cs, t)
  }

  ghost predicate AlwaysDominates(ws: seq<int>) {
    forall cs: seq<Candidate>, b: int :: Weights(cs) == ws ==>
      Value(cs, ExactSet(cs, b)) >= Value(cs, GreedySet(cs, b))
  }

  /** The same for values the model can predict. */
  ghost predicate DominatesPredicted(ws: seq<int>) {
    forall cs: seq<Candidate>, b: int :: Weights(cs) == ws && Predicted(cs) ==>
      Value(cs, ExactSet(cs, b)) >= Value(cs, GreedySet(cs, b))
  }

  /** No two filters gain a KB by being rounded separately. */
  ghost predicate PairsRound(ws: seq<int>) {
    forall i, j :: 0 <= i < j < |ws| ==> Kb(ws[i]) + Kb(ws[j]) <= Kb(ws[i] + ws[j])
  }

  /** Bytes lost by rounding; negative for a filter below 1 KB. */
  ghost function Slack(ws: seq<int>): seq<int> {
    seq(|ws|, i requires 0 <= i < |ws| => ws[i] - 1024 * Kb(ws[i]))
  }

  lemma {:induction false} SlackTotal(ws: seq<int>, s: set<nat>, n: nat)
    requires n <= |ws|
    ensures Total(Slack(ws), s, n) == Total(ws, s, n) - 1024 * Total(KbAll(ws), s, n)
  {
    if n == 0 {
    } else {
      SlackTotal(ws, s, n - 1);
    }
  }

  lemma {:induction false} PairSlack(ws: seq<int>, i: nat, j: nat)
    requires PairsRound(ws) && i < |ws| && j < |ws| && i != j
    ensures Slack(ws)[i] + Slack(ws)[j] >= 0
  {
    var a, b := if i < j then i else j, if i < j then j else i;
    assert Kb(ws[a]) + Kb(ws[b]) <= Kb(ws[a] + ws[b]);
  }

  /** Two or more filters never lose bytes in total. */
  lemma {:induction false} SlackNonNegative(ws: seq<int>, s: set<nat>, i: nat, j: nat)
    requires PairsRound(ws) && s <= Indices(|ws|) && i in s && j in s && i != j && Slack(ws)[i] < 0
    ensures Total(Slack(ws), s, |ws|) >= 0
  {
    var f, rest := Slack(ws), s - {i} - {j};
    forall m: nat | m < |ws| && m in rest ensures f[m] >= 0 { PairSlack(ws, i, m); }
    TotalNonNegative(f, rest, |ws|);
    TotalInsert(f, rest, j, |ws|);
    TotalInsert(f, rest + {j}, i, |ws|);
    assert rest + {j} + {i} == s;
    PairSlack(ws, i, j);
  }

  /** Under PairsRound what fits in bytes fits in KB. */
  lemma {:induction false} BytesFitImpliesKbFit(ws: seq<int>, s: set<nat>, b: int)
    requires PairsRound(ws) && s <= Indices(|ws|) && b > 0 && Total(ws, s, |ws|) <= b
    ensures Total(KbAll(ws), s, |ws|) <= Kb(b)
  {
    var f := Slack(ws);
    SlackTotal(ws, s, |ws|);
    if i :| i in s && f[i] < 0 {
      if j :| j in s && j != i {
        SlackNonNegative(ws, s, i, j);
      } else {
        assert s == {i};
        SingletonTotal(KbAll(ws), i, |ws|);
      }
    } else {
      TotalNonNegative(f, s, |ws|);
    }
  }

  lemma {:induction false} RoundingPairsByteOptimal(ws: seq<int>)
    requires PairsRound(ws)
    ensures ByteOptimal(ws)
  {
    forall cs: seq<Candidate>, b: int, t: set<nat>
      | Weights(cs) == ws && b > 0 && t <= Indices(|cs|) && Bytes(cs, t) <= b
      ensures Value(cs, ExactSet(cs, b)) >= Value(cs, t)
    {
      ExactIsOptimal(cs, b);
      BytesFitImpliesKbFit(ws, t, b);
      assert Fits(cs, b, t);
    }
  }

  /** Greedy stays within the byte budget, so it is one of the selections exact has to beat. */
  lemma {:induction false} ByteOptimalDominates(ws: seq<int>)
    requires ByteOptimal(ws)
    ensures AlwaysDominates(ws)
  {
    forall cs: seq<Candidate>, b: int | Weights(cs) == ws
      ensures Value(cs, ExactSet(cs, b)) >= Value(cs, GreedySet(cs, b))
    {
      GreedyIsFeasible(cs, b);
      if b <= 0 { assert GreedySet(cs, b) == ExactSet(cs, b) == {}; }
    }
  }

  // ----- a pair that does not round defeats exact -----

  /** The larger of the two weights, and at least 1. */
  ghost function PairSize(ws: seq<int>, i: nat, j: nat): nat
    requires i < |ws| && j < |ws|
  {
    Max(1, Max(ws[i], ws[j]))
  }

  /** A value so small that it neither outranks the pair nor, taken |ws| times, outweighs one of it. */
  ghost function Negligible(ws: seq<int>, i: nat, j: nat): real
    requires i < |ws| && j < |ws|
  {
    0.5 / |ws| as real / PairSize(ws, i, j) as real
  }

  lemma {:induction false} DivideBounds(x: real, d: real, m: real)
    requires 0.0 < x && 1.0 <= d <= m
    ensures 0.0 < x / m <= x / d <= x
  {
    assert x / d * d == x && x / m * m == x;
    assert x / d > 0.0 && x / m > 0.0;
    assert x / m * m >= x / m * d;
    assert x / d * d >= x / d * 1.0;
  }

  lemma {:induction false} NegligibleIsSmall(ws: seq<int>, i: nat, j: nat)
    requires i < |ws| && j < |ws|
    ensures 0.0 < Negligible(ws, i, j) < 0.75 / PairSize(ws, i, j) as real
    ensures Negligible(ws, i, j) <= 0.5 && Multiple(Negligible(ws, i, j), |ws|) <= 0.5
  {
    var n, m := |ws| as real, PairSize(ws, i, j) as real;
    DivideBounds(0.5, n, n);
    DivideBounds(0.5 / n, m, m);
    assert 0.75 / m - 0.5 / n / m == (0.75 - 0.5 / n) / m > 0.0;
    assert 0.5 / n * n == 0.5;
    assert Negligible(ws, i, j) * n <= 0.5 / n * n;
  }

  ghost function PairCandidates(ws: seq<int>, i: nat, j: nat): (cs: seq<Candidate>)
    requires i < |ws| && j < |ws|
    ensures |cs| == |ws| && Weights(cs) == ws && Predicted(cs)
  {
    NegligibleIsSmall(ws, i, j);
    seq(|ws|, m requires 0 <= m < |ws| =>
      Candidate("f", if m == i || m == j then 0.75 else Negligible(ws, i, j), ws[m]))
  }

  /** What the pair adds to the value of s. */
  ghost function PairPart(i: nat, j: nat, s: set<nat>, n: nat): real {
    (if i in s && i < n then 0.75 else 0.0) + (if j in s && j < n then 0.75 else 0.0)
  }

  lemma {:induction false} PairValue(vs: seq<real>, i: nat, j: nat, e: real, s: set<nat>, n: nat)
    requires n <= |vs| && i < j && e >= 0.0
    requires forall m: nat :: m < |vs| ==> vs[m] == if m == i || m == j then 0.75 else e
    ensures PairPart(i, j, s, n) <= Sum(vs, s, n) <= PairPart(i, j, s, n) + Multiple(e, n)
  {
    if n == 0 {
    } else {
      PairValue(vs, i, j, e, s, n - 1);
      assert Multiple(e, n) == Multiple(e, n - 1) + e;
    }
  }

  /** The two valuable candidates are ranked first. */
  lemma {:induction false} PairRankedFirst(keys: seq<real>, r: seq<nat>, i: nat, j: nat, least: real)
    requires Ranked(keys, r) && i in r && j in r && i != j
    requires forall m: nat :: m < |keys| ==> if m == i || m == j then keys[m] > least else keys[m] <= least
    ensures |r| >= 2 && ((r[0] == i && r[1] == j) || (r[0] == j && r[1] == i))
  {
    var p :| 0 <= p < |r| && r[p] == i;
    var q :| 0 <= q < |r| && r[q] == j;
    var last := if p < q then q else p;
    forall k | 0 <= k < last ensures r[k] == i || r[k] == j {
      assert RanksBefore(keys, r[k], r[last]);
    }
    assert Distinct(r) && r[0] != r[1];
    assert last <= 1;
  }

  lemma {:induction false} FirstTwoFit(cs: seq<Candidate>, r: seq<nat>, b: int)
    requires InRange(r, |cs|) && Distinct(r) && |r| >= 2
    requires b >= cs[r[0]].weight && b >= cs[r[0]].weight + cs[r[1]].weight
    ensures r[0] in Taken(cs, r, |r|, b) && r[1] in Taken(cs, r, |r|, b)
  {
    assert Left(cs, r, 0, b) == b && Left(cs, r, 1, b) == b - cs[r[0]].weight;
    TakenIff(cs, r, |r|, b, 0);
    TakenIff(cs, r, |r|, b, 1);
  }

  lemma {:induction false} PairRatios(ws: seq<int>, i: nat, j: nat, m: nat)
    requires i < |ws| && j < |ws| && m < |ws|
    ensures var key := Ratios(PairCandidates(ws, i, j))[m];
      if m == i || m == j then key > Negligible(ws, i, j) else key <= Negligible(ws, i, j)
  {
    assert Ratios(PairCandidates(ws, i, j))[m] == Ratio(PairCandidates(ws, i, j)[m]);
    var w := Max(ws[m], 1);
    NegligibleIsSmall(ws, i, j);
    if m == i || m == j {
      DivideBounds(0.75, w as real, PairSize(ws, i, j) as real);
    } else {
      DivideBounds(Negligible(ws, i, j), w as real, w as real);
    }
  }

  lemma {:induction false} GreedyTakesPair(ws: seq<int>, i: nat, j: nat, b: int)
    requires i < j < |ws| && b >= 1 && b >= ws[i] && b >= ws[j] && b >= ws[i] + ws[j]
    ensures i in GreedySet(PairCandidates(ws, i, j), b) && j in GreedySet(PairCandidates(ws, i, j), b)
  {
    var cs, e := PairCandidates(ws, i, j), Negligible(ws, i, j);
    var r, keys := Order(cs), Ratios(cs);
    RankIsRanked(keys, |cs|);
    forall m: nat | m < |keys| ensures if m == i || m == j then keys[m] > e else keys[m] <= e {
      PairRatios(ws, i, j, m);
    }
    PairRankedFirst(keys, r, i, j, e);
    FirstTwoFit(cs, r, b);
  }

  lemma {:induction false} ExactMissesPair(ws: seq<int>, i: nat, j: nat, b: int)
    requires i < j < |ws| && b >= 1 && Kb(ws[i]) + Kb(ws[j]) > Kb(b)
    ensures !(i in ExactSet(PairCandidates(ws, i, j), b) && j in ExactSet(PairCandidates(ws, i, j), b))
  {
    var cs, kb := PairCandidates(ws, i, j), KbAll(ws);
    var s := ExactSet(cs, b);
    ExactIsOptimal(cs, b);
    if i in s && j in s {
      SingletonTotal(kb, i, |ws|);
      TotalInsert(kb, {i}, j, |ws|);
      TotalSubset(kb, {i} + {j}, s, |ws|);
      assert false;
    }
  }

  lemma {:induction false} BadPairDefeatsExact(ws: seq<int>, i: nat, j: nat)
    requires i < j < |ws| && Kb(ws[i]) + Kb(ws[j]) > Kb(ws[i] + ws[j])
    ensures !DominatesPredicted(ws)
  {
    var cs, e := PairCandidates(ws, i, j), Negligible(ws, i, j);
    var b := Max(Max(1, ws[i] + ws[j]), Max(ws[i], ws[j]));
    var s, g := ExactSet(cs, b), GreedySet(cs, b);
    NegligibleIsSmall(ws, i, j);
    GreedyTakesPair(ws, i, j, b);
    ExactMissesPair(ws, i, j, b);
    PairValue(Values(cs), i, j, e, g, |cs|);
    PairValue(Values(cs), i, j, e, s, |cs|);
    assert Value(cs, s) < Value(cs, g);
  }

  /** Exact beats every selection within the byte budget, or just greedy, or just greedy on values the
      model can predict, for all budgets exactly when no pair of weights gains by separate rounding. */
  lemma {:induction false} ExactDominatesGreedyIff(ws: seq<int>)
    ensures AlwaysDominates(ws) <==> PairsRound(ws)
    ensures DominatesPredicted(ws) <==> PairsRound(ws)
    ensures ByteOptimal(ws) <==> PairsRound(ws)
  {
    if PairsRound(ws) {
      RoundingPairsByteOptimal(ws);
      ByteOptimalDominates(ws);
    } else {
      var i, j :| 0 <= i < j < |ws| && Kb(ws[i]) + Kb(ws[j]) > Kb(ws[i] + ws[j]);
      BadPairDefeatsExact(ws, i, j);
      if ByteOptimal(ws) { ByteOptimalDominates(ws); }
    }
  }

  /** Two filters of 512 bytes: each is rounded up to 1 KB, together they are 1 KB. */
  lemma {:induction false} SmallPairDefeatsExact()
    ensures !DominatesPredicted([512, 512])
  {
    BadPairDefeatsExact([512, 512], 0, 1);
  }

  /** Filters of at least 1 KB always qualify. */
  lemma {:induction false} LargeFiltersDominate(cs: seq<Candidate>, b: int)
    requires forall i :: 0 <= i < |cs| ==> cs[i].weight >= 1024
    ensures Value(cs, ExactSet(cs, b)) >= Value(cs, GreedySet(cs, b))
  {
    assert PairsRound(Weights(cs));
    ExactDominatesGreedyIff(Weights(cs));
  }
}
