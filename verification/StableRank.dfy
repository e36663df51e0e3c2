/** sorted(..., key=k, reverse=True) on positions: descending keys, equal keys in input order. */
module StableRank {

  predicate RanksBefore(keys: seq<real>, a: nat, b: nat)
    requires a < |keys| && b < |keys|
  {
    keys[a] > keys[b] || (keys[a] == keys[b] && a < b)
  }

  ghost predicate InRange(r: seq<nat>, n: nat) {
    forall k :: 0 <= k < |r| ==> r[k] < n
  }

  ghost predicate Distinct(r: seq<nat>) {
    forall a, b :: 0 <= a < b < |r| ==> r[a] != r[b]
  }

  ghost predicate Ranked(keys: seq<real>, r: seq<nat>) {
    InRange(r, |keys|) && forall a, b :: 0 <= a < b < |r| ==> RanksBefore(keys, r[a], r[b])
  }

  function Insert(keys: seq<real>, r: seq<nat>, x: nat): (r': seq<nat>)
    requires x < |keys| && InRange(r, |keys|)
    ensures |r'| == |r| + 1 && InRange(r', |keys|)
    ensures forall y :: y in r' <==> y == x || y in r
  {
    if r == [] then [x]
    else if RanksBefore(keys, x, r[0]) then [x] + r
    else [r[0]] + Insert(keys, r[1..], x)
  }

  lemma {:induction false} InsertRanked(keys: seq<real>, r: seq<nat>, x: nat)
    requires x < |keys| && x !in r && Ranked(keys, r)
    ensures Ranked(keys, Insert(keys, r, x))
  {
    if r == [] || RanksBefore(keys, x, r[0]) {
    } else {
      var rest := Insert(keys, r[1..], x);
      InsertRanked(keys, r[1..], x);
      forall b | 0 <= b < |rest| ensures RanksBefore(keys, r[0], rest[b]) {
        assert rest[b] in rest;
      }
    }
  }

  function Rank(keys: seq<real>, n: nat): (r: seq<nat>)
    requires n <= |keys|
    ensures |r| == n && InRange(r, |keys|)
    ensures forall y: nat :: y in r <==> y < n
  {
    if n == 0 then [] else Insert(keys, Rank(keys, n - 1), n - 1)
  }

  lemma {:induction false} RankIsRanked(keys: seq<real>, n: nat)
    requires n <= |keys|
    ensures Ranked(keys, Rank(keys, n)) && Distinct(Rank(keys, n))
  {
    if n == 0 {
    } else {
      RankIsRanked(keys, n - 1);
      InsertRanked(keys, Rank(keys, n - 1), n - 1);
    }
  }

  /** The stable descending order is unique, so Rank is the result of any such sort. */
  lemma {:induction false} RankIsUnique(keys: seq<real>, r: seq<nat>, q: seq<nat>)
    requires Ranked(keys, r) && Ranked(keys, q) && forall x :: x in r <==> x in q
    ensures r == q
  {
    assert q == [] || q[0] in r;
    if r == [] {
    } else {
      assert r[0] in q && q[0] in r;
      assert r[0] == q[0];
      TailMembers(keys, r);
      TailMembers(keys, q);
      RankIsUnique(keys, r[1..], q[1..]);
    }
  }

  lemma {:induction false} TailMembers(keys: seq<real>, r: seq<nat>)
    requires r != [] && Ranked(keys, r)
    ensures forall x :: x in r[1..] <==> x in r && x != r[0]
  {
    assert r == [r[0]] + r[1..];
  }
}
