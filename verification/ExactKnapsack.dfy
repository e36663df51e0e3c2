/** select_filters_exact (ml/knapsack.py:16-49): the rolling dynamic program with its
    choice table and traceback, and what the selection it returns means.
 */
module ExactKnapsack {
  import opened Candidates
  import opened Sequences

  /** The two-index recurrence: best value of the first i candidates at capacity w. */
  ghost function Best(vs: seq<real>, ws: seq<nat>, i: nat, w: nat): real
    requires i <= |vs| == |ws|
  {
    if i == 0 then 0.0 else
      var skip := Best(vs, ws, i - 1, w);
      if ws[i - 1] <= w && Best(vs, ws, i - 1, w - ws[i - 1]) + vs[i - 1] > skip
      then Best(vs, ws, i - 1, w - ws[i - 1]) + vs[i - 1] else skip
  }

  /** chosen[i][w]: candidate i strictly improves on skipping it at capacity w. */
  ghost predicate Takes(vs: seq<real>, ws: seq<nat>, i: nat, w: nat)
    requires i < |vs| == |ws|
  {
    ws[i] <= w && Best(vs, ws, i, w - ws[i]) + vs[i] > Best(vs, ws, i, w)
  }

  /** The traceback from capacity w over the first i candidates, last candidate first. */
  ghost function Trace(vs: seq<real>, ws: seq<nat>, i: nat, w: nat): (picks: seq<nat>)
    requires i <= |vs| == |ws|
    ensures forall k :: 0 <= k < |picks| ==> picks[k] < i
    ensures forall a, b :: 0 <= a < b < |picks| ==> picks[a] > picks[b]
  {
    if i == 0 then []
    else if Takes(vs, ws, i - 1, w) then [i - 1] + Trace(vs, ws, i - 1, w - ws[i - 1])
    else Trace(vs, ws, i - 1, w)
  }

  ghost function ExactPicks(cs: seq<Candidate>, budget: int): (picks: seq<nat>)
    ensures forall k :: 0 <= k < |picks| ==> picks[k] < |cs|
    ensures forall a, b :: 0 <= a < b < |picks| ==> picks[a] > picks[b]
  {
    if cs == [] || budget <= 0 then [] else Trace(Values(cs), KbAll(Weights(cs)), |cs|, Kb(budget))
  }

  ghost function ExactSet(cs: seq<Candidate>, budget: int): set<nat> {
    ToSet(ExactPicks(cs, budget))
  }

  /** After i outer iterations: dp is row i of the recurrence, chosen holds rows below i. */
  ghost predicate Filled(dp: array<real>, chosen: array2<bool>, vs: seq<real>, ws: seq<nat>, i: nat)
    requires i <= |vs| == |ws| == chosen.Length0 && dp.Length == chosen.Length1
    reads dp, chosen
  {
    && (forall u: nat :: u < dp.Length ==> dp[u] == Best(vs, ws, i, u))
    && (forall j: nat, u: nat :: j < |vs| && u < dp.Length ==>
          (chosen[j, u] <==> j < i && Takes(vs, ws, j, u)))
  }

  /** One outer iteration: the backward loop over capacities, in place. */
  method RelaxCandidate(dp: array<real>, chosen: array2<bool>, vs: seq<real>, ws: seq<nat>, i: nat)
    requires i < |vs| == |ws| == chosen.Length0 && 0 < dp.Length == chosen.Length1
    requires Filled(dp, chosen, vs, ws, i)
    modifies dp, chosen
    ensures Filled(dp, chosen, vs, ws, i + 1)
  {
    var w := dp.Length - 1;
    while w >= ws[i]
      invariant -1 <= w < dp.Length
      invariant forall u: nat :: w < u < dp.Length ==> dp[u] == Best(vs, ws, i + 1, u)
      invariant forall u: nat :: u <= w ==> dp[u] == Best(vs, ws, i, u)
      invariant forall j: nat, u: nat :: j < |vs| && u < dp.Length ==>
        (chosen[j, u] <==> (j < i || (j == i && u > w)) && Takes(vs, ws, j, u))
    {
      var candidateValue := dp[w - ws[i]] + vs[i];
      if candidateValue > dp[w] {
        dp[w] := candidateValue;
        chosen[i, w] := true;
      }
      w := w - 1;
    }
  }

  lemma {:induction false} NamesSnoc(cs: seq<Candidate>, picks: seq<nat>, i: nat)
    requires i < |cs| && forall k :: 0 <= k < |picks| ==> picks[k] < |cs|
    ensures NamesAt(cs, picks + [i]) == NamesAt(cs, picks) + [cs[i].name]
  {
  }

  method TraceBack(cs: seq<Candidate>, chosen: array2<bool>, vs: seq<real>, ws: seq<nat>)
    returns (selected: seq<string>)
    requires |cs| == |vs| == |ws| == chosen.Length0 && 0 < chosen.Length1
    requires forall j: nat, u: nat :: j < |cs| && u < chosen.Length1 ==> (chosen[j, u] <==> Takes(vs, ws, j, u))
    ensures selected == NamesAt(cs, Trace(vs, ws, |cs|, chosen.Length1 - 1))
  {
    selected := [];
    var w, i := chosen.Length1 - 1, |cs|;
    ghost var picks: seq<nat> := [];
    while i > 0
      invariant 0 <= i <= |cs| && 0 <= w < chosen.Length1
      invariant picks + Trace(vs, ws, i, w) == Trace(vs, ws, |cs|, chosen.Length1 - 1)
      invariant forall k :: 0 <= k < |picks| ==> picks[k] < |cs|
      invariant selected == NamesAt(cs, picks)
    {
      i := i - 1;
      assert Trace(vs, ws, i + 1, w)
        == if Takes(vs, ws, i, w) then [i] + Trace(vs, ws, i, w - ws[i]) else Trace(vs, ws, i, w);
      if chosen[i, w] {
        Assoc(picks, [i], Trace(vs, ws, i, w - ws[i]));
        NamesSnoc(cs, picks, i);
        selected := selected + [cs[i].name];
        picks := picks + [i];
        w := w - ws[i];
      }
    }
    assert picks == picks + Trace(vs, ws, 0, w);
  }

  /** The nested loops: the choice table for capacities up to W. */
  method FillTable(vs: seq<real>, ws: seq<nat>, W: nat) returns (chosen: array2<bool>)
    requires |vs| == |ws|
    ensures fresh(chosen) && chosen.Length0 == |vs| && chosen.Length1 == W + 1
    ensures forall j: nat, u: nat :: j < |vs| && u <= W ==> (chosen[j, u] <==> Takes(vs, ws, j, u))
  {
    var dp := new real[W + 1](_ => 0.0);
    chosen := new bool[|vs|, W + 1]((_, _) => false);
    for i := 0 to |vs|
      invariant fresh(dp) && fresh(chosen)
      invariant Filled(dp, chosen, vs, ws, i)
    {
      RelaxCandidate(dp, chosen, vs, ws, i);
    }
  }

  method SelectFiltersExact(cs: seq<Candidate>, budget: int) returns (selected: seq<string>)
    ensures selected == NamesAt(cs, ExactPicks(cs, budget))
    ensures var picks := ExactPicks(cs, budget);
      |selected| == |picks| && forall k :: 0 <= k < |picks| ==> selected[k] == cs[picks[k]].name
  {
    if cs == [] || budget <= 0 { return []; }
    var ws, vs := KbAll(Weights(cs)), Values(cs);
    var chosen := FillTable(vs, ws, Kb(budget));
    selected := TraceBack(cs, chosen, vs, ws);
  }

  // ----- optimality -----

  lemma {:induction false} BestBounds(vs: seq<real>, ws: seq<nat>, i: nat, w: nat, s: set<nat>)
    requires i <= |vs| == |ws| && Total(ws, s, i) <= w
    ensures Sum(vs, s, i) <= Best(vs, ws, i, w)
  {
    if i == 0 {
    } else {
      if i - 1 in s {
        TotalNonNegative(ws, s, i - 1);
        BestBounds(vs, ws, i - 1, w - ws[i - 1], s);
      } else {
        BestBounds(vs, ws, i - 1, w, s);
      }
    }
  }

  /** The members of the trace, one candidate at a time. */
  lemma {:induction false} TraceStep(vs: seq<real>, ws: seq<nat>, i: nat, w: nat)
    requires i < |vs| == |ws|
    ensures Takes(vs, ws, i, w) ==>
      ToSet(Trace(vs, ws, i + 1, w)) == ToSet(Trace(vs, ws, i, w - ws[i])) + {i} && i !in Trace(vs, ws, i, w - ws[i])
    ensures !Takes(vs, ws, i, w) ==> Trace(vs, ws, i + 1, w) == Trace(vs, ws, i, w) && i !in Trace(vs, ws, i, w)
  {
  }

  lemma {:induction false} SumNext(vs: seq<real>, ws: seq<int>, s: set<nat>, i: nat)
    requires i < |vs| == |ws| && i !in s
    ensures Sum(vs, s + {i}, i + 1) == Sum(vs, s, i) + vs[i] && Sum(vs, s, i + 1) == Sum(vs, s, i)
    ensures Total(ws, s + {i}, i + 1) == Total(ws, s, i) + ws[i] && Total(ws, s, i + 1) == Total(ws, s, i)
  {
    SumFrame(vs, s + {i}, s, i);
    TotalFrame(ws, s + {i}, s, i);
  }

  lemma {:induction false} BestStep(vs: seq<real>, ws: seq<nat>, i: nat, w: nat)
    requires i < |vs| == |ws|
    ensures Takes(vs, ws, i, w) ==> Best(vs, ws, i + 1, w) == Best(vs, ws, i, w - ws[i]) + vs[i]
    ensures !Takes(vs, ws, i, w) ==> Best(vs, ws, i + 1, w) == Best(vs, ws, i, w)
  {
  }

  /** s fits capacity w and is worth the table entry. */
  ghost predicate Attains(vs: seq<real>, ws: seq<nat>, i: nat, w: nat, s: set<nat>)
    requires i <= |vs| == |ws|
  {
    Total(ws, s, i) <= w && Sum(vs, s, i) == Best(vs, ws, i, w)
  }

  lemma {:induction false} AttainsStep(vs: seq<real>, ws: seq<nat>, i: nat, w: nat, s: set<nat>)
    requires i < |vs| == |ws| && i !in s
    ensures Takes(vs, ws, i, w) && Attains(vs, ws, i, w - ws[i], s) ==> Attains(vs, ws, i + 1, w, s + {i})
    ensures !Takes(vs, ws, i, w) && Attains(vs, ws, i, w, s) ==> Attains(vs, ws, i + 1, w, s)
  {
    SumNext(vs, ws, s, i);
    BestStep(vs, ws, i, w);
  }

  lemma {:induction false} TraceAttains(vs: seq<real>, ws: seq<nat>, i: nat, w: nat)
    requires i <= |vs| == |ws|
    ensures Attains(vs, ws, i, w, ToSet(Trace(vs, ws, i, w)))
  {
    if i == 0 {
    } else {
      var u := if Takes(vs, ws, i - 1, w) then w - ws[i - 1] else w;
      TraceStep(vs, ws, i - 1, w);
      TraceAttains(vs, ws, i - 1, u);
      AttainsStep(vs, ws, i - 1, w, ToSet(Trace(vs, ws, i - 1, u)));
    }
  }

  ghost predicate Fits(cs: seq<Candidate>, budget: int, s: set<nat>) {
    s <= Indices(|cs|) && KbWeight(cs, s) <= if budget <= 0 then 0 else Kb(budget)
  }

  ghost predicate Optimal(cs: seq<Candidate>, budget: int, s: set<nat>) {
    Fits(cs, budget, s) && forall t: set<nat> :: Fits(cs, budget, t) ==> Value(cs, t) <= Value(cs, s)
  }

  lemma {:induction false} ExactIsOptimal(cs: seq<Candidate>, budget: int)
    ensures Optimal(cs, budget, ExactSet(cs, budget))
  {
    var vs, ws := Values(cs), KbAll(Weights(cs));
    var s := ExactSet(cs, budget);
    if budget <= 0 {
      TotalZero(ws, s, |cs|);
      forall t: set<nat> | Fits(cs, budget, t) ensures t == s {
        TotalBoundsCount(ws, t, |cs|);
      }
    } else {
      if cs != [] { TraceAttains(vs, ws, |cs|, Kb(budget)); }
      forall t: set<nat> | Fits(cs, budget, t) ensures Value(cs, t) <= Value(cs, s) {
        BestBounds(vs, ws, |cs|, Kb(budget), t);
      }
    }
  }

  // ----- tie-breaking -----

  /** Reading membership bits from candidate n-1 down to 0, s is lexicographically before t:
      at the highest position where they differ, s leaves the candidate out. */
  ghost predicate LexBefore(s: set<nat>, t: set<nat>, n: nat) {
    exists k: nat :: k < n && k !in s && k in t && forall j: nat :: k < j < n ==> (j in s <==> j in t)
  }

  lemma {:induction false} TraceIsLeast(vs: seq<real>, ws: seq<nat>, i: nat, w: nat, t: set<nat>)
    requires i <= |vs| == |ws|
    requires Total(ws, t, i) <= w && Sum(vs, t, i) == Best(vs, ws, i, w)
    ensures (forall j: nat :: j < i ==> (j in Trace(vs, ws, i, w) <==> j in t))
         || LexBefore(ToSet(Trace(vs, ws, i, w)), t, i)
  {
    if i == 0 {
    } else {
      var s := ToSet(Trace(vs, ws, i, w));
      TraceStep(vs, ws, i - 1, w);
      TotalNonNegative(ws, t, i - 1);
      if i - 1 !in t {
        BestBounds(vs, ws, i - 1, w, t);
        assert i - 1 !in s;
        TraceIsLeast(vs, ws, i - 1, w, t);
        LexExtend(ToSet(Trace(vs, ws, i - 1, w)), s, t, i);
      } else if i - 1 in s {
        TraceIsLeast(vs, ws, i - 1, w - ws[i - 1], t);
        LexExtend(ToSet(Trace(vs, ws, i - 1, w - ws[i - 1])), s, t, i);
      } else {
        assert forall j: nat :: i - 1 < j < i ==> (j in s <==> j in t);
      }
    }
  }

  lemma {:induction false} LexExtend(s': set<nat>, s: set<nat>, t: set<nat>, i: nat)
    requires i > 0 && (i - 1 in s <==> i - 1 in t)
    requires forall j: nat :: j < i - 1 ==> (j in s' <==> j in s)
    ensures LexBefore(s', t, i - 1) ==> LexBefore(s, t, i)
  {
    if LexBefore(s', t, i - 1) {
      var k: nat :| k < i - 1 && k !in s' && k in t && forall j: nat :: k < j < i - 1 ==> (j in s' <==> j in t);
      assert k !in s && forall j: nat :: k < j < i ==> (j in s <==> j in t);
    }
  }

  lemma {:induction false} ExactIsLeast(cs: seq<Candidate>, budget: int, t: set<nat>)
    requires Optimal(cs, budget, t)
    ensures t == ExactSet(cs, budget) || LexBefore(ExactSet(cs, budget), t, |cs|)
  {
    var vs, ws := Values(cs), KbAll(Weights(cs));
    var s := ExactSet(cs, budget);
    ExactIsOptimal(cs, budget);
    if budget <= 0 {
      TotalBoundsCount(ws, t, |cs|);
    } else if cs != [] {
      TraceAttains(vs, ws, |cs|, Kb(budget));
      TraceIsLeast(vs, ws, |cs|, Kb(budget), t);
      if !LexBefore(s, t, |cs|) {
        assert forall j: nat :: j < |cs| ==> (j in s <==> j in t);
        assert t == s;
      }
    }
  }

  lemma {:induction false} LexAsymmetric(s: set<nat>, t: set<nat>, n: nat)
    requires LexBefore(s, t, n)
    ensures !LexBefore(t, s, n)
  {
  }

  /** s is optimal and comes before every other optimal selection. */
  ghost predicate LeastOptimal(cs: seq<Candidate>, budget: int, s: set<nat>) {
    Optimal(cs, budget, s) && forall t: set<nat> :: Optimal(cs, budget, t) && t != s ==> LexBefore(s, t, |cs|)
  }

  /** The selection is the one least optimal selection. */
  lemma {:induction false} ExactIsCanonical(cs: seq<Candidate>, budget: int, s: set<nat>)
    ensures LeastOptimal(cs, budget, s) <==> s == ExactSet(cs, budget)
  {
    var exact := ExactSet(cs, budget);
    ExactIsOptimal(cs, budget);
    forall t: set<nat> | Optimal(cs, budget, t) && t != exact ensures LexBefore(exact, t, |cs|) {
      ExactIsLeast(cs, budget, t);
    }
    if LeastOptimal(cs, budget, s) && s != exact { LexAsymmetric(s, exact, |cs|); }
  }
}
