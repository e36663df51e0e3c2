/** Concatenation of a sequence of sequences: the pieces of a text, or the rows of a list of batches. */
module Sequences {

  function Flatten<T>(parts: seq<seq<T>>): seq<T> {
    if parts == [] then [] else parts[0] + Flatten(parts[1..])
  }

  lemma {:induction false} FlattenAppend<T>(a: seq<seq<T>>, b: seq<seq<T>>)
    ensures Flatten(a + b) == Flatten(a) + Flatten(b)
  {
    if a == [] {
      assert a + b == b;
    } else {
      assert (a + b)[1..] == a[1..] + b;
      FlattenAppend(a[1..], b);
    }
  }

  lemma {:induction false} FlattenOne<T>(b: seq<T>)
    ensures Flatten([b]) == b
  {
    assert [b][1..] == [];
  }

  lemma {:induction false} FlattenSnoc<T>(a: seq<seq<T>>, b: seq<T>)
    ensures Flatten(a + [b]) == Flatten(a) + b
  {
    FlattenAppend(a, [b]);
    FlattenOne(b);
  }

  lemma {:induction false} Assoc<T>(a: seq<T>, b: seq<T>, c: seq<T>)
    ensures a + (b + c) == a + b + c
  {
  }

  lemma {:induction false} AppendCancels<T>(b: seq<T>, x: seq<T>, y: seq<T>)
    ensures b + x == b + y <==> x == y
  {
    assert (b + x)[|b|..] == x && (b + y)[|b|..] == y;
  }
}
