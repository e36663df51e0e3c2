/** exec_from_lines (datafusion-cli/src/exec.rs:67-108): lines are accumulated until one ends in
    ';', then run.  Execution is a parameter: fails(k, q) says whether the k-th run, of q, fails.
 */
module LineAccumulator {
  import opened Sequences
  import opened Text
  import Split = StatementSplitter

  datatype Line = Ok(text: string) | ReadError

  predicate Skipped(line: string) {
    "#!" <= line || "--" <= line
  }

  predicate EndsInSemicolon(s: string) {
    s != [] && s[|s| - 1] == ';'
  }

  predicate OnlyNewlines(s: string) {
    forall i :: 0 <= i < |s| ==> s[i] == '\n'
  }

  /** The lines before the first read error. */
  ghost function Readable(lines: seq<Line>): seq<string> {
    if lines == [] || lines[0].ReadError? then [] else [lines[0].text] + Readable(lines[1..])
  }

  /** Nothing after a read error is looked at. */
  lemma {:induction false} ReadErrorStops(texts: seq<string>, later: seq<Line>)
    ensures var lines := seq(|texts|, i requires 0 <= i < |texts| => Ok(texts[i]));
      Readable(lines) == texts == Readable(lines + [ReadError] + later)
  {
    var lines := seq(|texts|, i requires 0 <= i < |texts| => Ok(texts[i]));
    if texts == [] {
      assert (lines + [ReadError] + later)[0] == ReadError;
    } else {
      var rest := seq(|texts| - 1, i requires 0 <= i < |texts| - 1 => Ok(texts[1..][i]));
      ReadErrorStops(texts[1..], later);
      assert lines[1..] == rest && (lines + [ReadError] + later)[1..] == rest + [ReadError] + later;
      assert (lines + [ReadError] + later)[0] == Ok(texts[0]) && texts == [texts[0]] + texts[1..];
    }
  }

  /** What each line that is not a comment adds to the text: itself without trailing white space,
      and a newline unless it then ends in ';'. */
  ghost function Pieces(lines: seq<string>): (ps: seq<string>)
    ensures forall i :: 0 <= i < |ps| ==> ps[i] != []
  {
    if lines == [] then []
    else if Skipped(lines[0]) then Pieces(lines[1..])
    else [TrimEnd(lines[0]) + if EndsInSemicolon(TrimEnd(lines[0])) then "" else "\n"] + Pieces(lines[1..])
  }

  /** The statements completed by the pieces, when `pending` is already accumulated. */
  ghost function Statements(ps: seq<string>, pending: string): seq<string> {
    if ps == [] then []
    else if EndsInSemicolon(ps[0]) then [pending + ps[0]] + Statements(ps[1..], "")
    else Statements(ps[1..], pending + ps[0])
  }

  ghost function Leftover(ps: seq<string>, pending: string): string {
    if ps == [] then pending else Leftover(ps[1..], if EndsInSemicolon(ps[0]) then "" else pending + ps[0])
  }

  ghost function Runs(ps: seq<string>): seq<string> {
    Statements(ps, "") + if OnlyNewlines(Leftover(ps, "")) then [] else [Leftover(ps, "")]
  }

  lemma {:induction false} LineStep(done: seq<string>, lines: seq<string>, pending: string)
    requires lines != []
    ensures var t, ps, rest := TrimEnd(lines[0]), Pieces(lines), Pieces(lines[1..]);
      if Skipped(lines[0]) then ps == rest
      else if EndsInSemicolon(t) then
        && done + Statements(ps, pending) == done + [pending + t] + Statements(rest, "")
        && Leftover(ps, pending) == Leftover(rest, "")
      else
        && Statements(ps, pending) == Statements(rest, pending + t + "\n")
        && Leftover(ps, pending) == Leftover(rest, pending + t + "\n")
  {
    var t := TrimEnd(lines[0]);
    assert t + "" == t && pending + (t + "\n") == pending + t + "\n";
  }

  /** Positions of the runs that fail. */
  ghost function Failed(runs: seq<string>, fails: (nat, string) -> bool): seq<nat> {
    if runs == [] then [] else
      var k := |runs| - 1;
      Failed(runs[..k], fails) + if fails(k, runs[k]) then [k] else []
  }

  lemma {:induction false} FailedIff(runs: seq<string>, fails: (nat, string) -> bool, j: nat)
    ensures j in Failed(runs, fails) <==> j < |runs| && fails(j, runs[j])
  {
    if runs == [] {
    } else {
      FailedIff(runs[..|runs| - 1], fails, j);
    }
  }

  lemma {:induction false} FailedInOrder(runs: seq<string>, fails: (nat, string) -> bool, a: nat, b: nat)
    requires a < b < |Failed(runs, fails)|
    ensures Failed(runs, fails)[a] < Failed(runs, fails)[b]
  {
    var k := |runs| - 1;
    var before := Failed(runs[..k], fails);
    if b < |before| {
      FailedInOrder(runs[..k], fails, a, b);
    } else {
      FailedIff(runs[..k], fails, before[a]);
    }
  }

  lemma {:induction false} ReadStep(done: seq<string>, lines: seq<Line>, k: nat, pending: string)
    requires k < |lines| && lines[k].Ok?
    ensures var line, ps, rest := lines[k].text, Pieces(Readable(lines[k..])), Pieces(Readable(lines[k + 1..]));
      var t := TrimEnd(line);
      if Skipped(line) then ps == rest
      else if EndsInSemicolon(t) then
        && done + Statements(ps, pending) == done + [pending + t] + Statements(rest, "")
        && Leftover(ps, pending) == Leftover(rest, "")
      else
        && Statements(ps, pending) == Statements(rest, pending + t + "\n")
        && Leftover(ps, pending) == Leftover(rest, pending + t + "\n")
  {
    assert lines[k..][1..] == lines[k + 1..];
    assert Readable(lines[k..])[1..] == Readable(lines[k + 1..]);
    LineStep(done, Readable(lines[k..]), pending);
  }

  /** Every run happens whatever fails before it: the failure of a statement is only reported, and
      only a failing leftover makes the call fail. */
  method ExecFromLines(lines: seq<Line>, fails: (nat, string) -> bool)
    returns (executed: seq<string>, reported: seq<nat>, ok: bool)
    ensures executed == Runs(Pieces(Readable(lines)))
    ensures reported == Failed(Statements(Pieces(Readable(lines)), ""), fails)
    ensures var left := Leftover(Pieces(Readable(lines)), "");
      ok <==> OnlyNewlines(left) || !fails(|executed| - 1, left)
  {
    var query, k := "", 0;
    executed, reported := [], [];
    ghost var all := Pieces(Readable(lines));
    assert lines[0..] == lines;
    while k < |lines| && lines[k].Ok?
      invariant 0 <= k <= |lines|
      invariant executed + Statements(Pieces(Readable(lines[k..])), query) == Statements(all, "")
      invariant Leftover(Pieces(Readable(lines[k..])), query) == Leftover(all, "")
      invariant reported == Failed(executed, fails)
    {
      var line := lines[k].text;
      ReadStep(executed, lines, k, query);
      if !("#!" <= line) && !("--" <= line) {
        var trimmed := TrimEnd(line);
        query := query + trimmed;
        if EndsInSemicolon(trimmed) {
          assert (executed + [query])[..|executed|] == executed;
          if fails(|executed|, query) { reported := reported + [|executed|]; }
          executed := executed + [query];
          query := "";
        } else {
          query := query + "\n";
        }
      }
      k := k + 1;
    }
    assert Readable(lines[k..]) == [];
    assert executed == executed + Statements([], query);
    ok := true;
    if !OnlyNewlines(query) {
      ok := !fails(|executed|, query);
      executed := executed + [query];
    }
  }

  /** Nothing is lost or reordered. */
  lemma {:induction false} AccumulationConserves(ps: seq<string>, pending: string)
    ensures Flatten(Statements(ps, pending)) + Leftover(ps, pending) == pending + Flatten(ps)
  {
    if ps == [] {
      assert [] + pending == pending + [];
    } else if EndsInSemicolon(ps[0]) {
      var c, more, left := ps[0], Statements(ps[1..], ""), Leftover(ps[1..], "");
      calc {
        Flatten([pending + c] + more) + left;
        { assert ([pending + c] + more)[1..] == more; }
        pending + c + Flatten(more) + left;
        pending + c + (Flatten(more) + left);
        { AccumulationConserves(ps[1..], ""); }
        pending + c + ("" + Flatten(ps[1..]));
        pending + (c + Flatten(ps[1..]));
      }
    } else {
      AccumulationConserves(ps[1..], pending + ps[0]);
      assert pending + ps[0] + Flatten(ps[1..]) == pending + (ps[0] + Flatten(ps[1..]));
    }
  }

  /** Lines that start with "#!" or "--" add nothing. */
  lemma {:induction false} CommentAddsNothing(x: string, lines: seq<string>)
    ensures Pieces(["#!" + x] + lines) == Pieces(lines) == Pieces(["--" + x] + lines)
  {
    assert (["#!" + x] + lines)[1..] == lines && (["--" + x] + lines)[1..] == lines;
  }

  /** Any other line adds its text t without the white space w at its end, and a newline unless t ends
      in ';'. */
  lemma {:induction false} LineAdds(t: string, w: string, lines: seq<string>)
    requires Blank(w) && (t == [] || !IsWhitespace(t[|t| - 1]))
    requires var line := t + w;
      |line| < 2 || !((line[0] == '#' && line[1] == '!') || (line[0] == '-' && line[1] == '-'))
    ensures Pieces([t + w] + lines) == [if t != [] && t[|t| - 1] == ';' then t else t + "\n"] + Pieces(lines)
  {
    TrimEndUnique(t, w);
    assert ([t + w] + lines)[1..] == lines && t + "" == t;
    assert "#!"[0] == '#' && "#!"[1] == '!' && "--"[0] == '-' && "--"[1] == '-';
  }

  /** The statement completed by the first piece that ends in ';' is everything up to that piece, and
      accumulation starts afresh after it; without such a piece everything is left over. */
  lemma {:induction false} CutAtFirstSemicolon(a: seq<string>, p: string, b: seq<string>, pending: string)
    requires forall i :: 0 <= i < |a| ==> a[i] == [] || a[i][|a[i]| - 1] != ';'
    requires p != [] && p[|p| - 1] == ';'
    ensures Statements(a + [p] + b, pending) == [pending + Flatten(a) + p] + Statements(b, "")
    ensures Leftover(a + [p] + b, pending) == Leftover(b, "")
    ensures Statements(a, pending) == [] && Leftover(a, pending) == pending + Flatten(a)
  {
    var ps := a + [p] + b;
    if a == [] {
      assert ps[0] == p && ps[1..] == b;
      assert pending + Flatten(a) == pending;
    } else {
      assert ps[0] == a[0] && ps[1..] == a[1..] + [p] + b;
      CutAtFirstSemicolon(a[1..], p, b, pending + a[0]);
      Assoc(pending, a[0], Flatten(a[1..]));
    }
  }

  /** Every run before the leftover ends in ';'. */
  lemma {:induction false} StatementsEndInSemicolon(ps: seq<string>, pending: string, i: nat)
    requires i < |Statements(ps, pending)|
    ensures EndsInSemicolon(Statements(ps, pending)[i])
  {
    if EndsInSemicolon(ps[0]) {
      if i > 0 { StatementsEndInSemicolon(ps[1..], "", i - 1); }
    } else {
      StatementsEndInSemicolon(ps[1..], pending + ps[0], i);
    }
  }

  /** The runs concatenate to the accumulated text, less at most a leftover made of newlines. */
  lemma {:induction false} RunsLoseOnlyNewlines(ps: seq<string>) returns (lost: string)
    ensures (forall i :: 0 <= i < |lost| ==> lost[i] == '\n') && Flatten(Runs(ps)) + lost == Flatten(ps)
    ensures lost != [] ==> lost == Leftover(ps, "") && Runs(ps) == Statements(ps, "")
    ensures (exists i :: 0 <= i < |Leftover(ps, "")| && Leftover(ps, "")[i] != '\n') <==>
      Runs(ps) == Statements(ps, "") + [Leftover(ps, "")]
  {
    AccumulationConserves(ps, "");
    var left := Leftover(ps, "");
    assert "" + Flatten(ps) == Flatten(ps);
    if OnlyNewlines(left) {
      assert Runs(ps) == Statements(ps, "");
      lost := left;
    } else {
      FlattenAppend(Statements(ps, ""), [left]);
      assert Flatten([left]) == left + Flatten([]) == left;
      assert Flatten(Runs(ps)) + "" == Flatten(Runs(ps));
      lost := "";
    }
  }

  // ----- running line by line against splitting the whole text -----

  ghost function CommandsOfAll(texts: seq<string>): seq<string> {
    if texts == [] then [] else Split.Commands(texts[0]) + CommandsOfAll(texts[1..])
  }

  lemma {:induction false} CommandsOfAllAppend(a: seq<string>, b: seq<string>)
    ensures CommandsOfAll(a + b) == CommandsOfAll(a) + CommandsOfAll(b)
  {
    if a == [] {
      assert a + b == b;
    } else {
      assert (a + b)[1..] == a[1..] + b;
      CommandsOfAllAppend(a[1..], b);
    }
  }

  ghost predicate ClosesQuotes(s: string) {
    Split.State(s, Split.Closed) == Split.Closed
  }

  /** Every statement closes its quotes before its ';', except perhaps one that only blanks follow. */
  ghost predicate CutOutsideQuotes(stmts: seq<string>, left: string) {
    forall k :: 0 <= k < |stmts| ==> ClosesQuotes(stmts[k]) || (k == |stmts| - 1 && Blank(left))
  }

  lemma {:induction false} StatementsAreNotBlank(stmts: seq<string>, left: string)
    requires forall k :: 0 <= k < |stmts| ==> EndsInSemicolon(stmts[k])
    ensures if stmts == [] then Flatten(stmts) + left == left else !Blank(Flatten(stmts) + left)
  {
    if stmts != [] {
      assert EndsInSemicolon(stmts[0]);
      assert (Flatten(stmts) + left)[|stmts[0]| - 1] == ';';
    }
  }

  lemma {:induction false} CutStep(stmts: seq<string>, left: string)
    requires stmts != [] && forall k :: 0 <= k < |stmts| ==> EndsInSemicolon(stmts[k])
    ensures CutOutsideQuotes(stmts, left) <==>
      CutOutsideQuotes(stmts[1..], left)
      && (ClosesQuotes(stmts[0]) || Blank(Flatten(stmts[1..]) + left))
  {
    var more := stmts[1..];
    assert forall k :: 0 <= k < |more| ==> more[k] == stmts[k + 1];
    assert forall k :: 0 < k < |stmts| ==> stmts[k] == more[k - 1];
    StatementsAreNotBlank(more, left);
  }

  /** Splitting statements one by one and splitting the text they form give the same commands exactly
      when no statement was cut inside quotes with more text to follow. */
  lemma {:induction false} SplitsApartIff(stmts: seq<string>, left: string)
    requires forall k :: 0 <= k < |stmts| ==> EndsInSemicolon(stmts[k])
    ensures CommandsOfAll(stmts) + Split.Commands(left) == Split.Commands(Flatten(stmts) + left)
       <==> CutOutsideQuotes(stmts, left)
  {
    if stmts == [] {
      assert Flatten(stmts) + left == left;
    } else {
      var s, more := stmts[0], stmts[1..];
      var rest, others := Flatten(more) + left, CommandsOfAll(more) + Split.Commands(left);
      Assoc(s, Flatten(more), left);
      Assoc(Split.Commands(s), CommandsOfAll(more), Split.Commands(left));
      SplitsApartIff(more, left);
      CutStep(stmts, left);
      if ClosesQuotes(s) {
        Split.ClosedStatementThen(s, rest);
        AppendCancels(Split.Commands(s), others, Split.Commands(rest));
      } else if Blank(rest) {
        Split.BlankTextIgnored(s, rest);
        StatementsAreNotBlank(more, left);
      } else {
        Split.OpenTextMerges(s, rest, others);
      }
    }
  }

  /** The queries run for a script hold the commands of its text exactly when no line ends in ';'
      inside quotes with more text to follow. */
  lemma {:induction false} RunsAreCommandsIff(lines: seq<string>)
    ensures var ps := Pieces(lines);
      CommandsOfAll(Runs(ps)) == Split.Commands(Flatten(ps)) <==> CutOutsideQuotes(Statements(ps, ""), Leftover(ps, ""))
  {
    var ps := Pieces(lines);
    var stmts, left := Statements(ps, ""), Leftover(ps, "");
    forall k | 0 <= k < |stmts| ensures EndsInSemicolon(stmts[k]) { StatementsEndInSemicolon(ps, "", k); }
    SplitsApartIff(stmts, left);
    AccumulationConserves(ps, "");
    assert "" + Flatten(ps) == Flatten(ps);
    if OnlyNewlines(left) {
      assert Blank(left);
      Split.BlankTextIgnored("", left);
      assert Runs(ps) == stmts;
    } else {
      CommandsOfAllAppend(stmts, [left]);
      assert [left][1..] == [];
    }
  }

  /** A line that ends in ';' completes a statement when nothing is pending. */
  lemma {:induction false} CompleteLine(line: string, lines: seq<string>)
    requires !Skipped(line) && EndsInSemicolon(line)
    ensures var ps, rest := Pieces([line] + lines), Pieces(lines);
      && ps == [line] + rest
      && Statements(ps, "") == [line] + Statements(rest, "") && Leftover(ps, "") == Leftover(rest, "")
  {
    var rest := Pieces(lines);
    TrimEndUnique(line, "");
    assert line + "" == line && "" + line == line;
    assert ([line] + lines)[1..] == lines && ([line] + rest)[1..] == rest;
  }

  lemma {:induction false} TwoCompleteLines(a: string, b: string)
    requires !Skipped(a) && !Skipped(b) && EndsInSemicolon(a) && EndsInSemicolon(b)
    ensures var ps := Pieces([a, b]);
      ps == Statements(ps, "") == Runs(ps) == [a, b] && Leftover(ps, "") == "" && Flatten(ps) == a + b
  {
    CompleteLine(b, []);
    CompleteLine(a, [b]);
    assert [b] + [] == [b] && [a] + [b] == [a, b];
    FlattenOne(b);
    assert [a, b][1..] == [b];
  }

  /** Two lines that both end in ';', the first inside quotes, run as two queries that are not the
      commands of their text. */
  lemma {:induction false} CutInTwo(a: string, b: string)
    requires !Skipped(a) && !Skipped(b) && EndsInSemicolon(a) && EndsInSemicolon(b) && !ClosesQuotes(a)
    ensures Runs(Pieces([a, b])) == [a, b] && CommandsOfAll([a, b]) != Split.Commands(a + b)
  {
    TwoCompleteLines(a, b);
    RunsAreCommandsIff([a, b]);
    assert [a, b][0] == a;
  }

  /** A string literal over two lines, the first ending in ';'. */
  lemma {:induction false} LiteralCutInTwo()
    ensures Runs(Pieces(["'a;", "b';"])) == ["'a;", "b';"]
    ensures CommandsOfAll(["'a;", "b';"]) != Split.Commands("'a;b';")
  {
    var a, b := "'a;", "b';";
    assert a[0] == '\'' && a[1..] == "a;" && "a;"[1..] == ";" && ";"[1..] == [];
    assert Split.State("a;", Split.Single) == Split.Single;
    assert b[0] == 'b' && a + b == "'a;b';";
    CutInTwo(a, b);
  }
}
