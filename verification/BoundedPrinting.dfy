/** Row-limited collection and Table printing (datafusion-cli/src/exec.rs:293-317,
    datafusion-cli/src/print_format.rs:92-214).  A batch is a sequence of rows; the table renderer
    is a parameter that maps batches to lines.
 */
module BoundedPrinting {
  import opened Wrappers
  import opened MachineIntegers
  import opened Sequences

  datatype MaxRows = Unlimited | Limited(n: nat)

  datatype Item<T> = Batch(rows: seq<T>) | StreamError

  function SaturatingAdd(a: nat, b: nat): nat {
    if a + b > USIZE_MAX then USIZE_MAX else a + b
  }

  function Limit(m: MaxRows): nat {
    match m case Unlimited => USIZE_MAX case Limited(n) => n
  }

  // ----- collection -----

  /** The batches the loop keeps when `before` rows have already gone by. */
  ghost function Kept<T>(batches: seq<seq<T>>, limit: nat, before: nat): seq<seq<T>> {
    if batches == [] then [] else
      (if before < SaturatingAdd(limit, |batches[0]|) then [batches[0]] else [])
      + Kept(batches[1..], limit, before + |batches[0]|)
  }

  /** The batches before the first error of the stream. */
  ghost function Batches<T>(stream: seq<Item<T>>): seq<seq<T>> {
    if stream == [] || stream[0].StreamError? then [] else [stream[0].rows] + Batches(stream[1..])
  }

  lemma {:induction false} CollectStep<T>(results: seq<seq<T>>, stream: seq<Item<T>>, k: nat, limit: nat, before: nat)
    requires k < |stream| && stream[k].Batch?
    ensures var b, later := stream[k].rows, Batches(stream[k + 1..]);
      && results + Kept(Batches(stream[k..]), limit, before)
         == (if before < SaturatingAdd(limit, |b|) then results + [b] else results) + Kept(later, limit, before + |b|)
      && |Flatten(Batches(stream[k..]))| == |b| + |Flatten(later)|
  {
    assert stream[k..][1..] == stream[k + 1..];
    assert Batches(stream[k..])[1..] == Batches(stream[k + 1..]);
  }

  /** The collection loop; None when the stream reports an error. */
  method Collect<T>(stream: seq<Item<T>>, maxrows: MaxRows) returns (r: Option<(seq<seq<T>>, nat)>)
    ensures r.Some? <==> StreamError !in stream
    ensures r.Some? ==> r.value == (Kept(Batches(stream), Limit(maxrows), 0), |Flatten(Batches(stream))|)
  {
    var results: seq<seq<T>> := [];
    var rowCount: nat := 0;
    ghost var limit, all := Limit(maxrows), Batches(stream);
    assert stream[0..] == stream;
    for k := 0 to |stream|
      invariant StreamError !in stream[..k]
      invariant results + Kept(Batches(stream[k..]), limit, rowCount) == Kept(all, limit, 0)
      invariant rowCount + |Flatten(Batches(stream[k..]))| == |Flatten(all)|
    {
      if stream[k].StreamError? { return None; }
      var batch := stream[k].rows;
      CollectStep(results, stream, k, limit, rowCount);
      if rowCount < SaturatingAdd(Limit(maxrows), |batch|) {
        results := results + [batch];
      }
      rowCount := rowCount + |batch|;
    }
    assert stream[..|stream|] == stream && stream[|stream|..] == [];
    assert results == results + Kept(Batches(stream[|stream|..]), limit, rowCount);
    r := Some((results, rowCount));
  }

  lemma {:induction false} KeptRows<T>(batches: seq<seq<T>>, limit: nat, before: nat)
    requires batches != []
    ensures Flatten(Kept(batches, limit, before))
         == (if before < SaturatingAdd(limit, |batches[0]|) then batches[0] else [])
            + Flatten(Kept(batches[1..], limit, before + |batches[0]|))
  {
    var rest := Kept(batches[1..], limit, before + |batches[0]|);
    if before < SaturatingAdd(limit, |batches[0]|) {
      assert ([batches[0]] + rest)[1..] == rest;
    } else {
      assert Kept(batches, limit, before) == rest;
    }
  }

  /** The same rows up to m, and both or neither longer than m. */
  ghost predicate SameUpTo<T>(kept: seq<T>, all: seq<T>, m: nat) {
    if |all| > m then |kept| > m && kept[..m] == all[..m] else kept == all
  }

  lemma {:induction false} SameUpToPrepend<T>(b: seq<T>, kept: seq<T>, all: seq<T>, m: nat)
    requires |b| <= m ==> SameUpTo(kept, all, m - |b|)
    ensures SameUpTo(b + kept, b + all, m)
  {
    if |b| > m {
      assert (b + kept)[..m] == b[..m] == (b + all)[..m];
    } else if |all| > m - |b| {
      assert (b + kept)[..m] == b + kept[..m - |b|];
      assert (b + all)[..m] == b + all[..m - |b|];
    }
  }

  /** Up to the limit, the kept batches carry the same rows as all batches, and they exceed the
      limit exactly when all batches do. */
  lemma {:induction false} KeptAgrees<T>(batches: seq<seq<T>>, limit: nat, before: nat)
    requires before <= limit <= USIZE_MAX && before + |Flatten(batches)| <= USIZE_MAX
    ensures SameUpTo(Flatten(Kept(batches, limit, before)), Flatten(batches), limit - before)
  {
    if batches == [] {
    } else {
      var b, rest := batches[0], Flatten(Kept(batches[1..], limit, before + |batches[0]|));
      KeptRows(batches, limit, before);
      if before + |b| <= limit { KeptAgrees(batches[1..], limit, before + |b|); }
      SameUpToPrepend(b, rest, Flatten(batches[1..]), limit - before);
      assert b == [] ==> b + rest == Flatten(Kept(batches, limit, before));
    }
  }

  /** The kept batches need not be a prefix: after a large batch a small one is dropped and a
      larger one kept. */
  lemma {:induction false} KeptNeedNotBePrefix<T>(row: T, limit: nat) returns (batches: seq<seq<T>>)
    requires limit + 4 <= USIZE_MAX
    ensures |batches| == 3 && |batches[1]| > 0
    ensures Kept(batches, limit, 0) == [batches[0], batches[2]]
    ensures |Flatten(batches)| == |Flatten(Kept(batches, limit, 0))| + 1
  {
    var b0, b1, b2 := seq(limit + 2, _ => row), [row], seq(4, _ => row);
    batches := [b0, b1, b2];
    assert batches[1..] == [b1, b2] && [b1, b2][1..] == [b2] && [b2][1..] == [] && [b0, b2][1..] == [b2];
    assert Kept([b2], limit, limit + 3) == [b2] + [];
    assert Kept([b1, b2], limit, limit + 2) == [] + [b2];
    assert Flatten([b2]) == b2 + [] && Flatten([b1, b2]) == b1 + Flatten([b2]);
    assert Flatten([b0, b2]) == b0 + Flatten([b2]);
  }

  // ----- how much is collected -----

  /** Collection never holds more than the limit and two batches of the largest size. */
  lemma {:induction false} KeptBounded<T>(batches: seq<seq<T>>, limit: nat, before: nat, most: nat)
    requires forall i :: 0 <= i < |batches| ==> |batches[i]| <= most
    ensures |Flatten(Kept(batches, limit, before))|
         <= if before >= limit + most then 0 else limit + 2 * most - before
  {
    if batches == [] {
    } else {
      KeptRows(batches, limit, before);
      KeptBounded(batches[1..], limit, before + |batches[0]|, most);
    }
  }

  lemma {:induction false} BatchesOf<T>(stream: seq<Item<T>>)
    requires forall i :: 0 <= i < |stream| ==> stream[i].Batch?
    ensures |Batches(stream)| == |stream| && forall i :: 0 <= i < |stream| ==> Batches(stream)[i] == stream[i].rows
  {
    if stream == [] {
    } else {
      BatchesOf(stream[1..]);
    }
  }

  /** What is collected for a limit of n rows from batches of at most `most`; without a limit all is. */
  lemma {:induction false} CollectedBounded<T>(stream: seq<Item<T>>, n: nat, most: nat)
    requires forall i :: 0 <= i < |stream| ==> stream[i].Batch? && |stream[i].rows| <= most
    ensures |Flatten(Kept(Batches(stream), Limit(Limited(n)), 0))| <= n + 2 * most
    ensures |Flatten(Batches(stream))| <= USIZE_MAX ==>
      Flatten(Kept(Batches(stream), Limit(Unlimited), 0)) == Flatten(Batches(stream))
  {
    BatchesOf(stream);
    KeptBounded(Batches(stream), n, 0, most);
    if |Flatten(Batches(stream))| <= USIZE_MAX { KeptAgrees(Batches(stream), USIZE_MAX, 0); }
  }

  function Pow2(k: nat): nat {
    if k == 0 then 1 else 2 * Pow2(k - 1)
  }

  /** Batches of 1, 2, 4, ... rows. */
  ghost function Doubling<T>(row: T, k: nat): seq<seq<T>> {
    if k == 0 then [] else Doubling(row, k - 1) + [seq(Pow2(k - 1), _ => row)]
  }

  lemma {:induction false} KeptSnoc<T>(a: seq<seq<T>>, b: seq<T>, limit: nat, before: nat)
    ensures Kept(a + [b], limit, before) == Kept(a, limit, before)
      + if before + |Flatten(a)| < SaturatingAdd(limit, |b|) then [b] else []
  {
    if a == [] {
      assert a + [b] == [b] && [b][1..] == [];
    } else {
      var after := before + |a[0]|;
      var head := if before < SaturatingAdd(limit, |a[0]|) then [a[0]] else [];
      var tail := if before + |Flatten(a)| < SaturatingAdd(limit, |b|) then [b] else [];
      assert (a + [b])[1..] == a[1..] + [b];
      KeptSnoc(a[1..], b, limit, after);
      Assoc(head, Kept(a[1..], limit, after), tail);
    }
  }

  /** So the limit alone bounds nothing: doubling batches are all kept, for every limit. */
  lemma {:induction false} DoublingAllKept<T>(row: T, limit: nat, k: nat)
    requires Pow2(k) <= USIZE_MAX + 1
    ensures Kept(Doubling(row, k), limit, 0) == Doubling(row, k)
    ensures |Flatten(Doubling(row, k))| == Pow2(k) - 1
  {
    if k == 0 {
    } else {
      var b := seq(Pow2(k - 1), _ => row);
      DoublingAllKept(row, limit, k - 1);
      KeptSnoc(Doubling(row, k - 1), b, limit, 0);
      FlattenSnoc(Doubling(row, k - 1), b);
    }
  }

  // ----- printing -----

  /** Lines the rows take, when row r takes lines(r) of them. */
  ghost function Height<T>(rows: seq<T>, lines: T -> nat): nat {
    if rows == [] then 0 else lines(rows[0]) + Height(rows[1..], lines)
  }

  /** For at least one batch the renderer shows three header lines, the lines of every row, which may
      be several when a cell has line breaks, and a bottom border; its output does not depend on how
      the rows are split into batches. */
  ghost predicate TableRenderer<T(!new)>(pretty: seq<seq<T>> -> seq<string>, lines: T -> nat) {
    && (forall r: T :: lines(r) >= 1)
    && (forall a: seq<seq<T>> :: a != [] ==> |pretty(a)| == Height(Flatten(a), lines) + 4)
    && (forall a: seq<seq<T>>, b: seq<seq<T>> ::
          a != [] && b != [] && Flatten(a) == Flatten(b) ==> pretty(a) == pretty(b))
  }

  lemma {:induction false} HeightAppend<T>(a: seq<T>, b: seq<T>, lines: T -> nat)
    ensures Height(a + b, lines) == Height(a, lines) + Height(b, lines)
  {
    if a == [] {
      assert a + b == b;
    } else {
      assert (a + b)[1..] == a[1..] + b;
      HeightAppend(a[1..], b, lines);
    }
  }

  lemma {:induction false} HeightAtLeast<T(!new)>(rows: seq<T>, lines: T -> nat)
    requires forall r: T :: lines(r) >= 1
    ensures Height(rows, lines) >= |rows|
  {
    if rows == [] {
    } else {
      HeightAtLeast(rows[1..], lines);
    }
  }

  lemma {:induction false} HeightIsLengthIff<T(!new)>(rows: seq<T>, lines: T -> nat)
    requires forall r: T :: lines(r) >= 1
    ensures Height(rows, lines) == |rows| <==> forall i :: 0 <= i < |rows| ==> lines(rows[i]) == 1
  {
    if rows == [] {
    } else {
      HeightAtLeast(rows[1..], lines);
      HeightIsLengthIff(rows[1..], lines);
      assert forall i :: 0 < i < |rows| ==> rows[i] == rows[1..][i - 1];
      assert forall i :: 0 <= i < |rows[1..]| ==> rows[1..][i] == rows[i + 1];
    }
  }

  function Dotted(width: nat): (line: string)
    ensures |line| == if width >= 4 then width else 4
    ensures line[0] == line[|line| - 1] == '|' && line[2] == '.'
    ensures forall i :: 1 <= i < |line| - 1 && i != 2 ==> line[i] == ' '
  {
    "| ." + seq(if width >= 4 then width - 4 else 0, _ => ' ') + "|"
  }

  /** keep_only_maxrows; its precondition is the assertion in the source.  The header and the first
      maxrows lines stay, three dotted lines as wide as the bottom border follow, then the border. */
  function KeepOnlyMaxRows(lines: seq<string>, maxrows: nat): (out: seq<string>)
    requires |lines| >= maxrows + 4
    ensures |out| == maxrows + 7
    ensures forall i :: 0 <= i < maxrows + 3 ==> out[i] == lines[i]
    ensures forall i :: maxrows + 3 <= i < maxrows + 6 ==> out[i] == Dotted(|lines[|lines| - 1]|)
    ensures out[maxrows + 6] == lines[|lines| - 1]
  {
    var last := lines[|lines| - 1];
    lines[..maxrows + 3] + [Dotted(|last|), Dotted(|last|), Dotted(|last|)] + [last]
  }

  ghost function FormatRows<T(!new)>(
    pretty: seq<seq<T>> -> seq<string>, lines: T -> nat, rows: seq<T>, maxrows: MaxRows): seq<string>
    requires TableRenderer(pretty, lines)
  {
    if maxrows.Limited? && |rows| > maxrows.n then
      FlattenOne(rows[..maxrows.n]);
      HeightAtLeast(rows[..maxrows.n], lines);
      KeepOnlyMaxRows(pretty([rows[..maxrows.n]]), maxrows.n)
    else pretty([rows])
  }

  /** A truncated table shows the first n rows in full exactly when each of them takes one line;
      otherwise lines of the last ones are cut off with the rest. */
  lemma {:induction false} TruncatedTableCompleteIff<T(!new)>(
    pretty: seq<seq<T>> -> seq<string>, lines: T -> nat, rows: seq<T>, n: nat)
    requires TableRenderer(pretty, lines) && |rows| > n
    ensures var table, out := pretty([rows[..n]]), FormatRows(pretty, lines, rows, Limited(n));
      && |table| >= n + 4
      && (out[..n + 3] == table[..|table| - 1] <==> forall i :: 0 <= i < n ==> lines(rows[i]) == 1)
  {
    FlattenOne(rows[..n]);
    HeightAtLeast(rows[..n], lines);
    HeightIsLengthIff(rows[..n], lines);
    assert forall i :: 0 <= i < n ==> rows[..n][i] == rows[i];
    var table, out := pretty([rows[..n]]), FormatRows(pretty, lines, rows, Limited(n));
    assert out[..n + 3] == table[..n + 3];
  }

  /** A row of several lines is cut when one row is to be shown of two. */
  lemma {:induction false} TallRowIsCut<T(!new)>(pretty: seq<seq<T>> -> seq<string>, lines: T -> nat, row: T)
    requires TableRenderer(pretty, lines) && lines(row) > 1
    ensures var table, out := pretty([[row]]), FormatRows(pretty, lines, [row, row], Limited(1));
      |table| >= 5 && out[..4] != table[..|table| - 1]
  {
    assert [row, row][..1] == [row];
    TruncatedTableCompleteIff(pretty, lines, [row, row], 1);
    assert [row, row][0] == row;
  }

  /** The filtering loop: all rows, or the first n of them when there are more. */
  method TakeRows<T>(batches: seq<seq<T>>, n: nat) returns (filtered: seq<seq<T>>, overLimit: bool)
    ensures overLimit <==> |Flatten(batches)| > n
    ensures filtered == [] <==> batches == []
    ensures Flatten(filtered) == if overLimit then Flatten(batches)[..n] else Flatten(batches)
  {
    filtered, overLimit := [], false;
    var rowCount := 0;
    assert batches[0..] == batches;
    for k := 0 to |batches|
      invariant !overLimit && rowCount == |Flatten(filtered)| <= n && |filtered| == k
      invariant Flatten(filtered) + Flatten(batches[k..]) == Flatten(batches)
    {
      var batch := batches[k];
      assert batches[k..][1..] == batches[k + 1..];
      if rowCount + |batch| > n {
        var limit := n - rowCount;
        FlattenSnoc(filtered, batch[..limit]);
        filtered := filtered + [batch[..limit]];
        overLimit := true;
        return;
      } else {
        FlattenSnoc(filtered, batch);
        filtered := filtered + [batch];
        rowCount := rowCount + |batch|;
      }
    }
    assert Flatten(filtered) == Flatten(filtered) + Flatten(batches[|batches|..]);
  }

  method FormatBatchesWithMaxRows<T(!new)>(
    pretty: seq<seq<T>> -> seq<string>, ghost lines: T -> nat, batches: seq<seq<T>>, maxrows: MaxRows)
    returns (out: seq<string>)
    requires TableRenderer(pretty, lines)
    ensures out == if batches == [] then pretty([]) else FormatRows(pretty, lines, Flatten(batches), maxrows)
  {
    FlattenOne(Flatten(batches));
    if maxrows == Unlimited { return pretty(batches); }
    var filtered, overLimit := TakeRows(batches, maxrows.n);
    FlattenOne(Flatten(filtered));
    HeightAtLeast(Flatten(filtered), lines);
    var formatted := pretty(filtered);
    out := if overLimit then KeepOnlyMaxRows(formatted, maxrows.n) else formatted;
  }

  /** What Table format prints for a result; `header` is the table of an empty result. */
  ghost function PrintRows<T(!new)>(
    pretty: seq<seq<T>> -> seq<string>, lines: T -> nat, header: seq<string>, rows: seq<T>, maxrows: MaxRows)
    : seq<string>
    requires TableRenderer(pretty, lines)
  {
    if rows == [] then header else if maxrows == Limited(0) then [] else FormatRows(pretty, lines, rows, maxrows)
  }

  method PrintBatches<T(!new)>(
    pretty: seq<seq<T>> -> seq<string>, ghost lines: T -> nat,
    header: seq<string>, batches: seq<seq<T>>, maxrows: MaxRows)
    returns (out: seq<string>)
    requires TableRenderer(pretty, lines)
    ensures out == PrintRows(pretty, lines, header, Flatten(batches), maxrows)
  {
    var nonEmpty := NonEmpty(batches);
    SameRows(batches);
    if nonEmpty == [] { return header; }
    assert Flatten(nonEmpty) != [];
    if maxrows == Limited(0) { return []; }
    out := FormatBatchesWithMaxRows(pretty, lines, nonEmpty, maxrows);
  }

  function NonEmpty<T>(batches: seq<seq<T>>): (r: seq<seq<T>>)
    ensures forall i :: 0 <= i < |r| ==> |r[i]| > 0
  {
    if batches == [] then [] else (if |batches[0]| > 0 then [batches[0]] else []) + NonEmpty(batches[1..])
  }

  lemma {:induction false} SameRows<T>(batches: seq<seq<T>>)
    ensures Flatten(NonEmpty(batches)) == Flatten(batches)
  {
    if batches == [] {
    } else {
      SameRows(batches[1..]);
      if |batches[0]| > 0 {
        assert ([batches[0]] + NonEmpty(batches[1..]))[1..] == NonEmpty(batches[1..]);
      } else {
        assert NonEmpty(batches) == NonEmpty(batches[1..]);
        assert batches[0] + Flatten(batches[1..]) == Flatten(batches[1..]);
      }
    }
  }

  /** How many lines are printed: none for a limit of zero, the header table for no rows, the header and
      the limit and four closing lines over the limit, and every row otherwise. */
  lemma {:induction false} PrintedLines<T(!new)>(
    pretty: seq<seq<T>> -> seq<string>, lines: T -> nat, header: seq<string>, rows: seq<T>, maxrows: MaxRows)
    requires TableRenderer(pretty, lines)
    ensures |PrintRows(pretty, lines, header, rows, maxrows)|
         == if rows == [] then |header|
            else if maxrows.Limited? && maxrows.n == 0 then 0
            else if maxrows.Limited? && maxrows.n < |rows| then maxrows.n + 7
            else Height(rows, lines) + 4
    ensures rows == [] ==> PrintRows(pretty, lines, header, rows, maxrows) == header
  {
    FlattenOne(rows);
  }

  lemma {:induction false} CollectorAgrees<T(!new)>(
    pretty: seq<seq<T>> -> seq<string>, lines: T -> nat, header: seq<string>, batches: seq<seq<T>>, maxrows: MaxRows)
    requires TableRenderer(pretty, lines) && Limit(maxrows) <= USIZE_MAX && |Flatten(batches)| <= USIZE_MAX
    ensures PrintRows(pretty, lines, header, Flatten(Kept(batches, Limit(maxrows), 0)), maxrows)
         == PrintRows(pretty, lines, header, Flatten(batches), maxrows)
  {
    KeptAgrees(batches, Limit(maxrows), 0);
  }

  /** Collecting with the limit and printing what was kept prints the whole result. */
  method CollectAndPrint<T(!new)>(
    pretty: seq<seq<T>> -> seq<string>, ghost lines: T -> nat,
    header: seq<string>, stream: seq<Item<T>>, maxrows: MaxRows)
    returns (out: Option<seq<string>>)
    requires TableRenderer(pretty, lines) && Limit(maxrows) <= USIZE_MAX && |Flatten(Batches(stream))| <= USIZE_MAX
    ensures StreamError in stream ==> out == None
    ensures StreamError !in stream ==>
      out == Some(PrintRows(pretty, lines, header, Flatten(Batches(stream)), maxrows))
  {
    var r := Collect(stream, maxrows);
    if r == None { return None; }
    CollectorAgrees(pretty, lines, header, Batches(stream), maxrows);
    var printed := PrintBatches(pretty, lines, header, r.value.0, maxrows);
    out := Some(printed);
  }

  // ----- printing with an adjusted limit -----

  /** Every non-empty batch starts less than its own size past the limit. */
  ghost predicate InTime<T>(batches: seq<seq<T>>, limit: nat, before: nat) {
    forall i :: 0 <= i < |batches| && batches[i] != [] ==>
      before + |Flatten(batches[..i])| < SaturatingAdd(limit, |batches[i]|)
  }

  ghost predicate NothingDropped<T>(batches: seq<seq<T>>, limit: nat, before: nat) {
    batches == [] ||
    ((batches[0] == [] || before < SaturatingAdd(limit, |batches[0]|))
     && NothingDropped(batches[1..], limit, before + |batches[0]|))
  }

  lemma {:induction false} InTimeIff<T>(batches: seq<seq<T>>, limit: nat, before: nat)
    ensures InTime(batches, limit, before) <==> NothingDropped(batches, limit, before)
  {
    if batches == [] {
    } else {
      var b, rest := batches[0], batches[1..];
      InTimeIff(rest, limit, before + |b|);
      assert Flatten(batches[..0]) == [];
      forall i | 0 < i < |batches|
        ensures batches[i] == rest[i - 1] && |Flatten(batches[..i])| == |b| + |Flatten(rest[..i - 1])|
      {
        assert batches[..i][1..] == rest[..i - 1];
      }
      forall i | 0 <= i < |rest| ensures rest[i] == batches[i + 1] {
      }
    }
  }

  /** Dropping a non-empty batch, now or later, leaves fewer lines. */
  lemma {:induction false} HeightStep<T(!new)>(b: seq<T>, kept: seq<T>, all: seq<T>, keep: bool, lines: T -> nat)
    requires forall r: T :: lines(r) >= 1
    requires kept == all || Height(kept, lines) < Height(all, lines)
    ensures var kept' := (if keep then b else []) + kept;
      if kept == all && (b == [] || keep) then kept' == b + all else Height(kept', lines) < Height(b + all, lines)
  {
    HeightAppend(b, all, lines);
    HeightAppend(b, kept, lines);
    HeightAtLeast(b, lines);
    assert [] + kept == kept;
  }

  /** Either every row is kept, or the kept rows take fewer lines. */
  lemma {:induction false} KeptAllOrShorter<T(!new)>(batches: seq<seq<T>>, limit: nat, before: nat, lines: T -> nat)
    requires forall r: T :: lines(r) >= 1
    ensures var kept, all := Flatten(Kept(batches, limit, before)), Flatten(batches);
      if NothingDropped(batches, limit, before) then kept == all else Height(kept, lines) < Height(all, lines)
  {
    if batches == [] {
    } else {
      var b, rest := batches[0], batches[1..];
      var kept := Flatten(Kept(rest, limit, before + |b|));
      KeptAllOrShorter(rest, limit, before + |b|, lines);
      KeptRows(batches, limit, before);
      HeightStep(b, kept, Flatten(rest), before < SaturatingAdd(limit, |b|), lines);
    }
  }

  lemma {:induction false} FirstRowsKept<T>(batches: seq<seq<T>>, limit: nat)
    requires Flatten(batches) != []
    ensures Flatten(Kept(batches, limit, 0)) != []
  {
    KeptRows(batches, limit, 0);
    if batches[0] == [] {
      assert Flatten(batches) == Flatten(batches[1..]);
      FirstRowsKept(batches[1..], limit);
    }
  }

  /** EXPLAIN, DESCRIBE and SHOW print without a limit what was collected with one: the print is that
      of the whole result exactly when every non-empty batch started less than its own size past
      the limit. */
  lemma {:induction false} UnlimitedPrintCompleteIff<T(!new)>(
    pretty: seq<seq<T>> -> seq<string>, lines: T -> nat, header: seq<string>, batches: seq<seq<T>>, limit: nat)
    requires TableRenderer(pretty, lines)
    ensures var kept, all := Flatten(Kept(batches, limit, 0)), Flatten(batches);
      PrintRows(pretty, lines, header, kept, Unlimited) == PrintRows(pretty, lines, header, all, Unlimited)
      <==> InTime(batches, limit, 0)
  {
    var kept, all := Flatten(Kept(batches, limit, 0)), Flatten(batches);
    InTimeIff(batches, limit, 0);
    KeptAllOrShorter(batches, limit, 0, lines);
    FlattenOne(kept);
    FlattenOne(all);
    if all != [] { FirstRowsKept(batches, limit); }
  }

  /** For every limit some result is printed incompletely. */
  lemma {:induction false} UnlimitedPrintLosesRows<T(!new)>(
    pretty: seq<seq<T>> -> seq<string>, lines: T -> nat, header: seq<string>, row: T, limit: nat)
    returns (batches: seq<seq<T>>)
    requires TableRenderer(pretty, lines) && limit + 4 <= USIZE_MAX
    ensures PrintRows(pretty, lines, header, Flatten(Kept(batches, limit, 0)), Unlimited)
         != PrintRows(pretty, lines, header, Flatten(batches), Unlimited)
  {
    batches := KeptNeedNotBePrefix(row, limit);
    KeptAllOrShorter(batches, limit, 0, lines);
    InTimeIff(batches, limit, 0);
    UnlimitedPrintCompleteIff(pretty, lines, header, batches, limit);
  }
}
