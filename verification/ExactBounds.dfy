/** What the exact selection guarantees in bytes and across budgets: maximality, monotonicity,
    the rounding overshoot, and exactly which weights keep it within the byte budget.
 */
module ExactBounds {
  import opened Candidates
  import opened ExactKnapsack

  function Max(a: int, b: int): int { if a >= b then a else b }

  lemma {:induction false} SumInsert(f: seq<real>, s: set<nat>, i: nat, n: nat)
    requires n <= |f| && i < n && i !in s
    ensures Sum(f, s + {i}, n) == Sum(f, s, n) + f[i]
  {
    if i == n - 1 {
      SumFrame(f, s + {i}, s, n - 1);
    } else {
      SumInsert(f, s, i, n - 1);
    }
  }

  lemma {:induction false} TotalInsert(f: seq<int>, s: set<nat>, i: nat, n: nat)
    requires n <= |f| && i < n && i !in s
    ensures Total(f, s + {i}, n) == Total(f, s, n) + f[i]
  {
    if i == n - 1 {
      TotalFrame(f, s + {i}, s, n - 1);
    } else {
      TotalInsert(f, s, i, n - 1);
    }
  }

  lemma {:induction false} TotalSubset(f: seq<int>, s: set<nat>, t: set<nat>, n: nat)
    requires n <= |f| && s <= t && forall i: nat :: i < n ==> f[i] >= 0
    ensures Total(f, s, n) <= Total(f, t, n)
  {
    if n == 0 {
    } else {
      TotalSubset(f, s, t, n - 1);
    }
  }

  // ----- monotonicity and positivity -----

  /** Every row of the table is non-decreasing in capacity. */
  lemma {:induction false} BestMonotone(vs: seq<real>, ws: seq<nat>, i: nat, w: nat, u: nat)
    requires i <= |vs| == |ws| && w <= u
    ensures Best(vs, ws, i, w) <= Best(vs, ws, i, u)
  {
    TraceAttains(vs, ws, i, w);
    BestBounds(vs, ws, i, u, ToSet(Trace(vs, ws, i, w)));
  }

  lemma {:induction false} TracePositive(vs: seq<real>, ws: seq<nat>, i: nat, w: nat, j: nat)
    requires i <= |vs| == |ws| && j in Trace(vs, ws, i, w)
    ensures j < i && vs[j] > 0.0
  {
    if Takes(vs, ws, i - 1, w) {
      BestMonotone(vs, ws, i - 1, w - ws[i - 1], w);
      if j != i - 1 { TracePositive(vs, ws, i - 1, w - ws[i - 1], j); }
    } else {
      TracePositive(vs, ws, i - 1, w, j);
    }
  }

  /** A candidate without positive predicted value is never selected. */
  lemma {:induction false} SelectedArePositive(cs: seq<Candidate>, budget: int, j: nat)
    requires j in ExactSet(cs, budget)
    ensures j < |cs| && cs[j].value > 0.0
  {
    TracePositive(Values(cs), KbAll(Weights(cs)), |cs|, Kb(budget), j);
  }

  lemma {:induction false} ValueGrowsWithBudget(cs: seq<Candidate>, b1: int, b2: int)
    requires b1 <= b2
    ensures Value(cs, ExactSet(cs, b1)) <= Value(cs, ExactSet(cs, b2))
  {
    ExactIsOptimal(cs, b1);
    ExactIsOptimal(cs, b2);
    assert Fits(cs, b2, ExactSet(cs, b1));
  }

  /** No candidate of positive value is left out while there is room for it. */
  lemma {:induction false} ExactIsMaximal(cs: seq<Candidate>, budget: int, i: nat)
    requires i < |cs| && cs[i].value > 0.0 && i !in ExactSet(cs, budget)
    ensures KbWeight(cs, ExactSet(cs, budget)) + Kb(cs[i].weight) > if budget <= 0 then 0 else Kb(budget)
  {
    var s := ExactSet(cs, budget);
    ExactIsOptimal(cs, budget);
    SumInsert(Values(cs), s, i, |cs|);
    TotalInsert(KbAll(Weights(cs)), s, i, |cs|);
    assert !Fits(cs, budget, s + {i});
  }

  /** With positive values everything is selected exactly when all scaled weights fit together. */
  lemma {:induction false} AllSelectedIff(cs: seq<Candidate>, budget: int)
    requires forall i :: 0 <= i < |cs| ==> cs[i].value > 0.0
    ensures ExactSet(cs, budget) == Indices(|cs|) <==> Fits(cs, budget, Indices(|cs|))
  {
    var s, ws := ExactSet(cs, budget), KbAll(Weights(cs));
    ExactIsOptimal(cs, budget);
    if Fits(cs, budget, Indices(|cs|)) {
      forall i: nat | i < |cs| ensures i in s {
        if i !in s {
          ExactIsMaximal(cs, budget, i);
          TotalInsert(ws, s, i, |cs|);
          TotalSubset(ws, s + {i}, Indices(|cs|), |cs|);
        }
      }
    }
  }

  // ----- rounding -----

  lemma {:induction false} BytesOverKb(ws: seq<int>, s: set<nat>, n: nat)
    requires n <= |ws| && (forall i :: i in s ==> i < n)
    ensures Total(ws, s, n) <= 1024 * Total(KbAll(ws), s, n) + 1023 * |s|
  {
    if n == 0 {
      assert s == {};
    } else if n - 1 in s {
      var t := s - {n - 1};
      BytesOverKb(ws, t, n - 1);
      TotalFrame(ws, s, t, n - 1);
      TotalFrame(KbAll(ws), s, t, n - 1);
    } else {
      BytesOverKb(ws, s, n - 1);
    }
  }

  /** Floor scaling lets a selection of k filters exceed the budget by at most 1023k bytes,
      which stays below a factor of two. */
  lemma {:induction false} RoundingOvershoot(cs: seq<Candidate>, budget: int)
    requires budget > 0
    ensures |ExactSet(cs, budget)| <= Kb(budget)
    ensures Bytes(cs, ExactSet(cs, budget)) <= Max(budget, 1024) + 1023 * |ExactSet(cs, budget)|
    ensures Bytes(cs, ExactSet(cs, budget)) < 2 * Max(budget, 1024)
  {
    ExactIsOptimal(cs, budget);
    var s := ExactSet(cs, budget);
    TotalBoundsCount(KbAll(Weights(cs)), s, |cs|);
    BytesOverKb(Weights(cs), s, |cs|);
  }

  lemma {:induction false} ConstantTotal(f: seq<int>, c: int, n: nat)
    requires n <= |f| && forall i :: 0 <= i < n ==> f[i] == c
    ensures Total(f, Indices(n), n) == c * n
  {
    if n == 0 {
    } else {
      ConstantTotal(f, c, n - 1);
      TotalFrame(f, Indices(n), Indices(n - 1), n - 1);
    }
  }

  lemma {:induction false} IndicesSize(n: nat)
    ensures |Indices(n)| == n
  {
    if n == 0 {
    } else {
      IndicesSize(n - 1);
    }
  }

  /** For every k >= 1 some input attains the overshoot of 1023k bytes. */
  lemma {:induction false} OvershootIsTight(k: nat) returns (cs: seq<Candidate>, budget: int)
    requires k >= 1
    ensures Predicted(cs) && budget > 0 && |ExactSet(cs, budget)| == k
    ensures Bytes(cs, ExactSet(cs, budget)) == Max(budget, 1024) + 1023 * k
  {
    cs := seq(k, _ => Candidate("f", 0.5, 2047));
    budget := 1024 * k;
    ConstantTotal(KbAll(Weights(cs)), 1, k);
    ConstantTotal(Weights(cs), 2047, k);
    AllSelectedIff(cs, budget);
    IndicesSize(k);
  }

  // ----- when the byte budget is respected -----

  /** Whatever the values, no budget of at least `least` bytes is exceeded. */
  ghost predicate RespectsBudgets(ws: seq<int>, least: int) {
    forall cs: seq<Candidate>, b: int :: Weights(cs) == ws && b >= least ==> Bytes(cs, ExactSet(cs, b)) <= b
  }

  /** The same for values the model can predict. */
  ghost predicate RespectsBudgetsPredicted(ws: seq<int>, least: int) {
    forall cs: seq<Candidate>, b: int ::
      Weights(cs) == ws && b >= least && Predicted(cs) ==> Bytes(cs, ExactSet(cs, b)) <= b
  }

  lemma {:induction false} SingletonTotal(f: seq<int>, i: nat, n: nat)
    requires i < n <= |f|
    ensures Total(f, {i}, n) == f[i]
  {
    TotalZero(f, {}, n);
    TotalInsert(f, {}, i, n);
    assert {} + {i} == {i};
  }

  lemma {:induction false} SingletonSum(f: seq<real>, i: nat, n: nat)
    requires i < n <= |f|
    ensures Sum(f, {i}, n) == f[i]
  {
    SumZero(f, {}, n);
    SumInsert(f, {}, i, n);
    assert {} + {i} == {i};
  }

  /** Value 0.75 for i; the others share 0.5. */
  ghost function Favouring(names: seq<string>, ws: seq<int>, i: nat): (cs: seq<Candidate>)
    requires |names| == |ws|
    ensures Names(cs) == names && Weights(cs) == ws && Predicted(cs)
    ensures forall m: nat :: m < |cs| ==> cs[m].value == if m == i then 0.75 else 0.5 / |ws| as real
  {
    seq(|ws|, m requires 0 <= m < |ws| => Candidate(names[m], if m == i then 0.75 else 0.5 / |ws| as real, ws[m]))
  }

  /** A selection without candidate i is worth less than i alone. */
  lemma {:induction false} FavouredBeatsOthers(names: seq<string>, ws: seq<int>, i: nat, s: set<nat>)
    requires i < |ws| == |names| && i !in s
    ensures Value(Favouring(names, ws, i), s) < Value(Favouring(names, ws, i), {i})
  {
    var vs, e := Values(Favouring(names, ws, i)), 0.5 / |ws| as real;
    SumAtMost(vs, s, e, |ws|);
    assert Multiple(e, |ws|) == 0.5;
    SingletonSum(vs, i, |ws|);
  }

  /** When candidate i fills the capacity, it alone is selected. */
  lemma {:induction false} FavouredIsSelected(names: seq<string>, ws: seq<int>, i: nat, b: int)
    requires i < |ws| == |names| && b > 0 && Kb(ws[i]) == Kb(b)
    ensures ExactSet(Favouring(names, ws, i), b) == {i}
  {
    var cs, kb := Favouring(names, ws, i), KbAll(ws);
    var s := ExactSet(cs, b);
    ExactIsOptimal(cs, b);
    SingletonTotal(kb, i, |ws|);
    assert Fits(cs, b, {i});
    if i !in s { FavouredBeatsOthers(names, ws, i, s); }
    forall j | j in s ensures j == i {
      if j != i {
        TotalInsert(kb, {i}, j, |ws|);
        TotalSubset(kb, {i} + {j}, s, |ws|);
      }
    }
  }

  lemma {:induction false} OneTooLarge(ws: seq<int>, i: nat, b: int) returns (cs: seq<Candidate>)
    requires i < |ws| && b > 0 && Kb(ws[i]) == Kb(b)
    ensures Weights(cs) == ws && Predicted(cs) && Bytes(cs, ExactSet(cs, b)) == ws[i]
  {
    var names := seq(|ws|, _ => "f");
    cs := Favouring(names, ws, i);
    FavouredIsSelected(names, ws, i, b);
    SingletonTotal(ws, i, |ws|);
  }

  lemma {:induction false} BytesWithinKb(ws: seq<int>, s: set<nat>, n: nat)
    requires n <= |ws| && forall i: nat :: i < n ==> ws[i] <= 1024 * Kb(ws[i])
    ensures Total(ws, s, n) <= 1024 * Total(KbAll(ws), s, n)
  {
    if n == 0 {
    } else {
      BytesWithinKb(ws, s, n - 1);
    }
  }

  lemma {:induction false} RespectsLargeBudgetsIff(ws: seq<int>)
    ensures RespectsBudgets(ws, 1024) <==> forall i :: 0 <= i < |ws| ==> ws[i] <= 1024 || ws[i] % 1024 == 0
    ensures RespectsBudgetsPredicted(ws, 1024) <==> RespectsBudgets(ws, 1024)
  {
    if i :| 0 <= i < |ws| && ws[i] > 1024 && ws[i] % 1024 != 0 {
      var b := 1024 * Kb(ws[i]);
      var cs := OneTooLarge(ws, i, b);
      assert Bytes(cs, ExactSet(cs, b)) > b;
    } else {
      forall cs: seq<Candidate>, b: int | Weights(cs) == ws && b >= 1024 ensures Bytes(cs, ExactSet(cs, b)) <= b {
        ExactIsOptimal(cs, b);
        BytesWithinKb(ws, ExactSet(cs, b), |ws|);
      }
    }
  }

  lemma {:induction false} RespectsAllBudgetsIff(ws: seq<int>)
    ensures RespectsBudgets(ws, 1) <==> forall i :: 0 <= i < |ws| ==> ws[i] <= 1 || (ws[i] >= 2048 && ws[i] % 1024 == 0)
    ensures RespectsBudgetsPredicted(ws, 1) <==> RespectsBudgets(ws, 1)
  {
    if i :| 0 <= i < |ws| && ws[i] > 1 && (ws[i] < 2048 || ws[i] % 1024 != 0) {
      var b := if ws[i] < 2048 then 1 else 1024 * Kb(ws[i]);
      var cs := OneTooLarge(ws, i, b);
      assert Bytes(cs, ExactSet(cs, b)) > b;
    } else {
      forall cs: seq<Candidate>, b: int | Weights(cs) == ws && b >= 1 ensures Bytes(cs, ExactSet(cs, b)) <= b {
        var s := ExactSet(cs, b);
        ExactIsOptimal(cs, b);
        BytesWithinKb(ws, s, |ws|);
        if b < 1024 { AtMostOneBelow2Kb(cs, s); }
      }
    }
  }

  /** At scaled capacity 1 at most one candidate is selected, and it is smaller than 2 KB. */
  lemma {:induction false} AtMostOneBelow2Kb(cs: seq<Candidate>, s: set<nat>)
    requires s <= Indices(|cs|) && KbWeight(cs, s) <= 1
    ensures Bytes(cs, s) == 0 || exists i :: 0 <= i < |cs| && Weights(cs)[i] == Bytes(cs, s) < 2048
  {
    var kb := KbAll(Weights(cs));
    TotalBoundsCount(kb, s, |cs|);
    if i :| i in s {
      assert |s - {i}| == |s| - 1;
      assert s == {i};
      SingletonTotal(kb, i, |cs|);
      SingletonTotal(Weights(cs), i, |cs|);
    } else {
      TotalZero(Weights(cs), s, |cs|);
    }
  }
}
