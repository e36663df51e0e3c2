/** Bloom-filter candidates and the totals of a set of them (ml/knapsack.py).

    A selection is a set of positions in the candidate list.  The values are floats in the
    source and `real` here; weights and budgets are integers of any sign, as in the source.
 */
module Candidates {

  datatype Candidate = Candidate(name: string, value: real, weight: int)

  function Values(cs: seq<Candidate>): seq<real> {
    seq(|cs|, i requires 0 <= i < |cs| => cs[i].value)
  }

  function Weights(cs: seq<Candidate>): seq<int> {
    seq(|cs|, i requires 0 <= i < |cs| => cs[i].weight)
  }

  ghost function Names(cs: seq<Candidate>): seq<string> {
    seq(|cs|, i requires 0 <= i < |cs| => cs[i].name)
  }

  /** Every value is one the logistic function takes. */
  ghost predicate Predicted(cs: seq<Candidate>) {
    forall i :: 0 <= i < |cs| ==> 0.0 < cs[i].value < 1.0
  }

  /** Bytes to KB: floor, but at least 1. */
  function Kb(bytes: int): nat {
    if bytes / 1024 > 1 then bytes / 1024 else 1
  }

  function KbAll(ws: seq<int>): seq<nat> {
    seq(|ws|, i requires 0 <= i < |ws| => Kb(ws[i]))
  }

  function NamesAt(cs: seq<Candidate>, picks: seq<nat>): seq<string>
    requires forall k :: 0 <= k < |picks| ==> picks[k] < |cs|
  {
    seq(|picks|, k requires 0 <= k < |picks| => cs[picks[k]].name)
  }

  ghost function ToSet(picks: seq<nat>): set<nat> {
    set i | i in picks
  }

  ghost function Indices(n: nat): (s: set<nat>)
    ensures forall i: nat :: i in s <==> i < n
  {
    if n == 0 then {} else Indices(n - 1) + {n - 1}
  }

  /** Sum of f over the members of s below n. */
  ghost function Sum(f: seq<real>, s: set<nat>, n: nat): real
    requires n <= |f|
  {
    if n == 0 then 0.0 else Sum(f, s, n - 1) + if n - 1 in s then f[n - 1] else 0.0
  }

  /** Integer counterpart of Sum. */
  ghost function Total(f: seq<int>, s: set<nat>, n: nat): int
    requires n <= |f|
  {
    if n == 0 then 0 else Total(f, s, n - 1) + if n - 1 in s then f[n - 1] else 0
  }

  ghost function Value(cs: seq<Candidate>, s: set<nat>): real {
    Sum(Values(cs), s, |cs|)
  }

  ghost function Bytes(cs: seq<Candidate>, s: set<nat>): int {
    Total(Weights(cs), s, |cs|)
  }

  ghost function KbWeight(cs: seq<Candidate>, s: set<nat>): int {
    Total(KbAll(Weights(cs)), s, |cs|)
  }

  /** Totals see only membership below n. */
  lemma {:induction false} SumFrame(f: seq<real>, s: set<nat>, t: set<nat>, n: nat)
    requires n <= |f|
    requires forall i: nat :: i < n ==> (i in s <==> i in t)
    ensures Sum(f, s, n) == Sum(f, t, n)
  {
    if n == 0 {
    } else {
      SumFrame(f, s, t, n - 1);
    }
  }

  lemma {:induction false} TotalFrame(f: seq<int>, s: set<nat>, t: set<nat>, n: nat)
    requires n <= |f|
    requires forall i: nat :: i < n ==> (i in s <==> i in t)
    ensures Total(f, s, n) == Total(f, t, n)
  {
    if n == 0 {
    } else {
      TotalFrame(f, s, t, n - 1);
    }
  }

  lemma {:induction false} SumZero(f: seq<real>, s: set<nat>, n: nat)
    requires n <= |f| && s == {}
    ensures Sum(f, s, n) == 0.0
  {
    if n == 0 {
    } else {
      SumZero(f, s, n - 1);
    }
  }

  ghost function Multiple(e: real, n: nat): real {
    e * n as real
  }

  lemma {:induction false} SumAtMost(f: seq<real>, s: set<nat>, e: real, n: nat)
    requires n <= |f| && 0.0 <= e && forall i: nat :: i < n && i in s ==> f[i] <= e
    ensures Sum(f, s, n) <= Multiple(e, n)
  {
    if n == 0 {
    } else {
      SumAtMost(f, s, e, n - 1);
      assert Multiple(e, n) == Multiple(e, n - 1) + e;
    }
  }

  lemma {:induction false} TotalNonNegative(f: seq<int>, s: set<nat>, n: nat)
    requires n <= |f|
    requires forall j: nat :: j < n && j in s ==> f[j] >= 0
    ensures Total(f, s, n) >= 0
  {
    if n == 0 {
    } else {
      TotalNonNegative(f, s, n - 1);
    }
  }

  /** When every term is at least 1, the total bounds the number of members. */
  lemma {:induction false} TotalBoundsCount(f: seq<int>, s: set<nat>, n: nat)
    requires n <= |f| && (forall i :: i in s ==> i < n)
    requires forall j: nat :: j < n ==> f[j] >= 1
    ensures |s| <= Total(f, s, n)
  {
    if n == 0 {
      assert s == {};
    } else if n - 1 in s {
      var t := s - {n - 1};
      TotalBoundsCount(f, t, n - 1);
      TotalFrame(f, s, t, n - 1);
    } else {
      TotalBoundsCount(f, s, n - 1);
    }
  }

  lemma {:induction false} TotalZero(f: seq<int>, s: set<nat>, n: nat)
    requires n <= |f| && s == {}
    ensures Total(f, s, n) == 0
  {
    if n == 0 {
    } else {
      TotalZero(f, s, n - 1);
    }
  }
}
