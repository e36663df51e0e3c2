/** Splitting CLI input into statements (datafusion-cli/src/helper.rs:76-111, 168-208) and its use
    for validation and execution (datafusion-cli/src/exec.rs:177-179).
 */
module StatementSplitter {
  import opened Wrappers
  import opened Sequences
  import opened Text

  datatype Quote = Closed | Single | Double

  function Next(q: Quote, c: char): Quote {
    if c == '\'' && q != Double then (if q == Single then Closed else Single)
    else if c == '"' && q != Single then (if q == Double then Closed else Double)
    else q
  }

  /** Quote state after reading s from state q. */
  ghost function State(s: string, q: Quote): Quote {
    if s == [] then q else State(s[1..], Next(q, s[0]))
  }

  /** The pieces of s between semicolons outside quotes. */
  ghost function Segments(s: string, q: Quote): (segs: seq<string>)
    ensures |segs| > 0
  {
    if s == [] then [[]]
    else if s[0] == ';' && q == Closed then [[]] + Segments(s[1..], Closed)
    else Prepend([s[0]], Segments(s[1..], Next(q, s[0])))
  }

  ghost function Prepend(p: string, segs: seq<string>): (r: seq<string>)
    requires |segs| > 0
    ensures |r| == |segs|
  {
    [p + segs[0]] + segs[1..]
  }

  lemma {:induction false} PrependEmpty(segs: seq<string>)
    requires |segs| > 0
    ensures Prepend("", segs) == segs
  {
    assert "" + segs[0] == segs[0];
  }

  lemma {:induction false} PrependNil(p: string, rest: seq<string>)
    ensures Prepend(p, [[]] + rest) == [p] + rest
  {
    assert p + [] == p;
  }

  lemma {:induction false} PrependTwice(a: string, b: string, segs: seq<string>)
    requires |segs| > 0
    ensures Prepend(a, Prepend(b, segs)) == Prepend(a + b, segs)
  {
    assert a + (b + segs[0]) == a + b + segs[0];
  }

  ghost function Command(seg: string): seq<string> {
    if Trim(seg) == [] then [] else [Trim(seg) + ";"]
  }

  /** Each non-blank segment, trimmed, with ';' appended. */
  ghost function Render(segs: seq<string>): seq<string> {
    if segs == [] then [] else Command(segs[0]) + Render(segs[1..])
  }

  ghost function Commands(sql: string): seq<string> {
    Render(Segments(sql, Closed))
  }

  method SplitFromSemicolon(sql: string) returns (commands: seq<string>)
    ensures commands == Commands(sql)
  {
    commands := [];
    var current, inSingle, inDouble := "", false, false;
    ghost var q := Closed;
    assert sql[0..] == sql;
    PrependEmpty(Segments(sql, Closed));
    for k := 0 to |sql|
      invariant inSingle == (q == Single) && inDouble == (q == Double)
      invariant commands + Render(Prepend(current, Segments(sql[k..], q))) == Commands(sql)
    {
      var c := sql[k];
      ghost var rest := Segments(sql[k + 1..], Next(q, c));
      assert sql[k..][1..] == sql[k + 1..];
      if c == ';' && q == Closed {
        AtSeparator(current, rest);
      } else {
        PrependTwice(current, [c], rest);
      }
      if c == '\'' && !inDouble {
        inSingle := !inSingle;
      } else if c == '"' && !inSingle {
        inDouble := !inDouble;
      }
      q := Next(q, c);
      if c == ';' && !inSingle && !inDouble {
        if Trim(current) != [] {
          commands := commands + [Trim(current) + ";"];
          current := "";
        }
      } else {
        current := current + [c];
      }
    }
    assert Segments(sql[|sql|..], q) == [[]];
    assert Prepend(current, [""]) == [current] by { assert current + "" == current; }
    assert Render([current]) == Command(current);
    if Trim(current) != [] {
      commands := commands + [Trim(current) + ";"];
    }
  }

  /** At a separator a non-blank buffer becomes a command; a blank one may be carried over. */
  lemma {:induction false} AtSeparator(buffer: string, rest: seq<string>)
    requires |rest| > 0
    ensures Trim(buffer) != [] ==>
      Render(Prepend(buffer, [[]] + rest)) == [Trim(buffer) + ";"] + Render(Prepend("", rest))
    ensures Trim(buffer) == [] ==> Render(Prepend(buffer, [[]] + rest)) == Render(Prepend(buffer, rest))
  {
    PrependNil(buffer, rest);
    PrependEmpty(rest);
    assert ([buffer] + rest)[1..] == rest;
    if Trim(buffer) == [] {
      TrimEnds(buffer);
      TrimBlankPrefix(buffer, rest[0]);
      assert Render([buffer] + rest) == Render(rest);
      assert Prepend(buffer, rest)[1..] == rest[1..];
    }
  }

  // ----- Segments is the only such decomposition -----

  /** No semicolon of s is outside quotes when s is read from state q. */
  ghost predicate NoSeparator(s: string, q: Quote) {
    s == [] || (!(s[0] == ';' && q == Closed) && NoSeparator(s[1..], Next(q, s[0])))
  }

  ghost function Join(segs: seq<string>): string
    requires |segs| > 0
  {
    if |segs| == 1 then segs[0] else segs[0] + ";" + Join(segs[1..])
  }

  /** No segment contains a separator, and all but the last close their quotes. */
  ghost predicate CleanPieces(segs: seq<string>, q: Quote)
    requires |segs| > 0
  {
    && NoSeparator(segs[0], q) && (|segs| > 1 ==> State(segs[0], q) == Closed)
    && (forall i :: 1 <= i < |segs| ==> NoSeparator(segs[i], Closed))
    && (forall i :: 1 <= i < |segs| - 1 ==> State(segs[i], Closed) == Closed)
  }

  /** Moreover, joined by ';' the segments give s. */
  ghost predicate Segmentation(segs: seq<string>, s: string, q: Quote)
    requires |segs| > 0
  {
    Join(segs) == s && CleanPieces(segs, q)
  }

  lemma {:induction false} JoinPrepend(p: string, segs: seq<string>)
    requires |segs| > 0
    ensures Join(Prepend(p, segs)) == p + Join(segs)
  {
    assert Prepend(p, segs)[1..] == segs[1..];
    if |segs| > 1 {
      Assoc(p, segs[0], ";" + Join(segs[1..]));
      assert p + segs[0] + ";" + Join(segs[1..]) == p + segs[0] + (";" + Join(segs[1..]));
      assert segs[0] + ";" + Join(segs[1..]) == segs[0] + (";" + Join(segs[1..]));
    }
  }

  lemma {:induction false} SegmentsJoin(s: string, q: Quote)
    ensures Join(Segments(s, q)) == s
  {
    if s == [] {
    } else {
      var rest := Segments(s[1..], Next(q, s[0]));
      SegmentsJoin(s[1..], Next(q, s[0]));
      if s[0] == ';' && q == Closed {
        assert ([[]] + rest)[1..] == rest && [] + ";" == ";";
        assert s == ";" + s[1..];
      } else {
        JoinPrepend([s[0]], rest);
      }
    }
  }

  lemma {:induction false} SegmentsClean(s: string, q: Quote)
    ensures CleanPieces(Segments(s, q), q)
  {
    if s == [] {
    } else {
      var rest, segs := Segments(s[1..], Next(q, s[0])), Segments(s, q);
      SegmentsClean(s[1..], Next(q, s[0]));
      if s[0] == ';' && q == Closed {
        assert forall i :: 1 <= i < |segs| ==> segs[i] == rest[i - 1];
      } else {
        assert forall i :: 1 <= i < |segs| ==> segs[i] == rest[i];
        assert segs[0][1..] == rest[0];
      }
    }
  }

  lemma {:induction false} SegmentsAreSegmentation(s: string, q: Quote)
    ensures Segmentation(Segments(s, q), s, q)
  {
    SegmentsJoin(s, q);
    SegmentsClean(s, q);
  }

  lemma {:induction false} SegmentationUnique(segs: seq<string>, s: string, q: Quote)
    requires |segs| > 0 && Segmentation(segs, s, q)
    ensures segs == Segments(s, q)
    decreases |s|
  {
    if s != [] {
      if segs[0] == [] {
        assert |segs| > 1 && s == [] + ";" + Join(segs[1..]);
        assert s[0] == ';' && s[1..] == Join(segs[1..]);
        SegmentationUnique(segs[1..], s[1..], Closed);
      } else {
        var shorter := [segs[0][1..]] + segs[1..];
        assert s[0] == segs[0][0];
        assert s[1..] == Join(shorter);
        SegmentationUnique(shorter, s[1..], Next(q, s[0]));
        assert [s[0]] + shorter[0] == segs[0];
      }
    } else {
      assert |segs| == 1;
    }
  }

  // ----- appending text -----

  lemma {:induction false} BlankKeepsState(w: string, q: Quote)
    requires Blank(w)
    ensures State(w, q) == q && NoSeparator(w, q)
  {
    if w == [] {
    } else {
      BlankKeepsState(w[1..], q);
    }
  }

  lemma {:induction false} StateConcat(a: string, b: string, q: Quote)
    ensures State(a + b, q) == State(b, State(a, q))
    ensures NoSeparator(a + b, q) <==> NoSeparator(a, q) && NoSeparator(b, State(a, q))
  {
    if a == [] {
      assert a + b == b;
    } else {
      assert (a + b)[1..] == a[1..] + b;
      StateConcat(a[1..], b, Next(q, a[0]));
    }
  }

  lemma {:induction false} WholeSegment(s: string, q: Quote)
    requires NoSeparator(s, q)
    ensures Segments(s, q) == [s]
  {
    if s == [] {
    } else {
      WholeSegment(s[1..], Next(q, s[0]));
      assert [s[0]] + s[1..] == s;
    }
  }

  /** Both lists, with the last of a and the first of b joined. */
  ghost function Splice(a: seq<string>, b: seq<string>): seq<string>
    requires |a| > 0 && |b| > 0
  {
    a[..|a| - 1] + [a[|a| - 1] + b[0]] + b[1..]
  }

  lemma {:induction false} SpliceSnoc(before: seq<string>, last: string, b: seq<string>)
    requires |b| > 0
    ensures Splice(before + [last], b) == before + [last + b[0]] + b[1..]
  {
    assert (before + [last])[..|before|] == before;
  }

  lemma {:induction false} PrependSplice(p: string, a: seq<string>, b: seq<string>)
    requires |a| > 0 && |b| > 0
    ensures Prepend(p, Splice(a, b)) == Splice(Prepend(p, a), b)
    ensures [[]] + Splice(a, b) == Splice([[]] + a, b)
  {
    assert p + (a[0] + b[0]) == p + a[0] + b[0];
  }

  /** Appended text continues the last segment, in the quote state reached. */
  lemma {:induction false} SegmentsAppend(a: string, b: string, q: Quote)
    ensures Segments(a + b, q) == Splice(Segments(a, q), Segments(b, State(a, q)))
  {
    var more := Segments(b, State(a, q));
    if a == [] {
      assert a + b == b;
      assert [] + more[0] == more[0];
    } else {
      assert (a + b)[1..] == a[1..] + b;
      SegmentsAppend(a[1..], b, Next(q, a[0]));
      PrependSplice([a[0]], Segments(a[1..], Next(q, a[0])), more);
    }
  }

  /** A separator after closed quotes starts a new segment. */
  lemma {:induction false} SegmentsAcrossSeparator(a: string, b: string, q: Quote)
    requires State(a, q) == Closed
    ensures Segments(a + ";" + b, q) == Segments(a, q) + Segments(b, Closed)
  {
    var segs := Segments(a, q);
    SegmentsAppend(a, ";" + b, q);
    assert a + ";" + b == a + (";" + b) && (";" + b)[1..] == b;
    assert segs[|segs| - 1] + [] == segs[|segs| - 1];
  }

  lemma {:induction false} LastSegmentState(s: string, q: Quote)
    ensures var segs := Segments(s, q);
      State(s, q) == State(segs[|segs| - 1], if |segs| == 1 then q else Closed)
  {
    if s == [] {
    } else {
      LastSegmentState(s[1..], Next(q, s[0]));
      var rest := Segments(s[1..], Next(q, s[0]));
      assert ([s[0]] + rest[0])[1..] == rest[0];
    }
  }

  lemma {:induction false} RenderAppend(a: seq<string>, b: seq<string>)
    ensures Render(a + b) == Render(a) + Render(b)
  {
    if a == [] {
      assert a + b == b;
    } else {
      assert (a + b)[1..] == a[1..] + b;
      RenderAppend(a[1..], b);
    }
  }

  lemma {:induction false} RenderHead(segs: seq<string>)
    requires segs != []
    ensures Trim(segs[0]) == [] ==> Render(segs) == Render(segs[1..])
    ensures Trim(segs[0]) != [] ==> Render(segs) == [Trim(segs[0]) + ";"] + Render(segs[1..])
  {
  }

  lemma {:induction false} RenderOne(seg: string)
    ensures Render([seg]) == Command(seg)
  {
    assert [seg][1..] == [];
  }

  lemma {:induction false} CommandsAcrossSeparator(sql: string, rest: string)
    requires State(sql, Closed) == Closed
    ensures Commands(sql + ";" + rest) == Commands(sql) + Commands(rest)
  {
    SegmentsAcrossSeparator(sql, rest, Closed);
    RenderAppend(Segments(sql, Closed), Segments(rest, Closed));
  }

  // ----- what quotes do -----

  ghost predicate Unquoted(s: string) {
    '\'' !in s && '"' !in s
  }

  /** Text without quote characters leaves every state alone; outside quotes its separators are its
      semicolons, inside quotes it has none. */
  lemma {:induction false} UnquotedText(s: string, q: Quote)
    requires Unquoted(s)
    ensures State(s, q) == q && (NoSeparator(s, q) <==> q != Closed || ';' !in s)
  {
    if s == [] {
    } else {
      assert forall i :: 0 <= i < |s| - 1 ==> s[1..][i] in s;
      UnquotedText(s[1..], q);
      assert s == [s[0]] + s[1..];
    }
  }

  /** Inside a literal opened by d, only d means anything. */
  lemma {:induction false} InsideLiteral(d: char, q: Quote, s: string)
    requires (d == '\'' && q == Single) || (d == '"' && q == Double)
    requires d !in s
    ensures State(s, q) == q && NoSeparator(s, q)
  {
    if s == [] {
    } else {
      assert forall i :: 0 <= i < |s| - 1 ==> s[1..][i] in s;
      InsideLiteral(d, q, s[1..]);
    }
  }

  /** A literal opened by d stays open, without a separator, until the next d closes it. */
  lemma {:induction false} Literal(d: char, s: string)
    requires (d == '\'' || d == '"') && d !in s
    ensures State([d] + s, Closed) != Closed && NoSeparator([d] + s, Closed)
    ensures State([d] + s + [d], Closed) == Closed && NoSeparator([d] + s + [d], Closed)
  {
    var q := if d == '\'' then Single else Double;
    assert ([d] + s)[1..] == s && [d][1..] == [];
    InsideLiteral(d, q, s);
    StateConcat([d] + s, [d], Closed);
  }

  /** A literal and plain text without semicolons around it are one command, whatever semicolons and
      other quote characters the literal holds. */
  lemma {:induction false} LiteralInOneCommand(a: string, d: char, s: string, b: string)
    requires Unquoted(a) && ';' !in a && Unquoted(b) && ';' !in b && (d == '\'' || d == '"') && d !in s
    ensures var sql := a + ([d] + s + [d]) + b; Commands(sql) == [Trim(sql) + ";"]
  {
    var literal := [d] + s + [d];
    var sql := a + literal + b;
    UnquotedText(a, Closed);
    Literal(d, s);
    UnquotedText(b, Closed);
    StateConcat(a, literal, Closed);
    StateConcat(a + literal, b, Closed);
    WholeSegment(sql, Closed);
    RenderOne(sql);
    TrimEnds(sql);
    assert sql[|a|] == d && !IsWhitespace(sql[|a|]);
  }

  /** In text without quote characters every semicolon ends a command. */
  lemma {:induction false} UnquotedSplits(a: string, b: string)
    requires Unquoted(a)
    ensures Commands(a + ";" + b) == Commands(a) + Commands(b)
    ensures ';' !in a ==> Commands(a) == if Blank(a) then [] else [Trim(a) + ";"]
  {
    UnquotedText(a, Closed);
    CommandsAcrossSeparator(a, b);
    if ';' !in a {
      WholeSegment(a, Closed);
      RenderOne(a);
      TrimEnds(a);
    }
  }

  // ----- what is validated is what is executed -----

  /** The last segment of a text that ends inside quotes is not blank. */
  lemma {:induction false} OpenSegmentNotBlank(s: string) returns (before: seq<string>, last: string)
    requires State(s, Closed) != Closed
    ensures Segments(s, Closed) == before + [last] && !Blank(last) && State(last, Closed) == State(s, Closed)
  {
    var segs := Segments(s, Closed);
    before, last := segs[..|segs| - 1], segs[|segs| - 1];
    LastSegmentState(s, Closed);
    if Blank(last) { BlankKeepsState(last, Closed); }
  }

  /** Blank text at the end adds and changes no command. */
  lemma {:induction false} BlankTextIgnored(s: string, w: string)
    requires Blank(w)
    ensures Commands(s + w) == Commands(s) && Commands(w) == []
  {
    var segs := Segments(s, Closed);
    var before, last := segs[..|segs| - 1], segs[|segs| - 1];
    assert segs == before + [last];
    SegmentsAppend(s, w, Closed);
    BlankKeepsState(w, State(s, Closed));
    WholeSegment(w, State(s, Closed));
    SpliceSnoc(before, last, [w]);
    assert before + [last + w] + [w][1..] == before + [last + w];
    RenderAppend(before, [last]);
    RenderAppend(before, [last + w]);
    TrimBlankSuffix(last, w);
    RenderOne(last);
    RenderOne(last + w);
    BlankKeepsState(w, Closed);
    WholeSegment(w, Closed);
    RenderOne(w);
    TrimEnds(w);
  }

  lemma {:induction false} ClosedThenSemicolon(sql: string, w: string)
    requires Blank(w) && State(sql, Closed) == Closed
    ensures Commands(sql + ";" + w) == Commands(sql)
  {
    CommandsAcrossSeparator(sql, w);
    BlankTextIgnored("", w);
  }

  lemma {:induction false} SemicolonKeepsState(sql: string)
    ensures State(sql + ";", Closed) == State(sql, Closed)
  {
    StateConcat(sql, ";", Closed);
    assert ";"[1..] == [];
  }

  /** Text after a statement that closes its quotes before its ';' is split on its own. */
  lemma {:induction false} ClosedStatementThen(s: string, rest: string)
    requires s != [] && s[|s| - 1] == ';' && State(s, Closed) == Closed
    ensures Commands(s + rest) == Commands(s) + Commands(rest)
  {
    var sql := s[..|s| - 1];
    assert s == sql + ";" && sql + ";" + "" == s;
    SemicolonKeepsState(sql);
    CommandsAcrossSeparator(sql, rest);
    ClosedThenSemicolon(sql, "");
  }

  /** Read from inside quotes, text up to the first separator is blank only if all of it is. */
  lemma {:induction false} OpenFirstSegment(s: string, q: Quote)
    requires q != Closed && Blank(Segments(s, q)[0])
    ensures Blank(s)
  {
    if s == [] {
    } else {
      var rest := Segments(s[1..], Next(q, s[0]))[0];
      assert Segments(s, q)[0] == [s[0]] + rest;
      assert IsWhitespace(([s[0]] + rest)[0]);
      assert forall i :: 0 <= i < |rest| ==> rest[i] == ([s[0]] + rest)[i + 1];
      OpenFirstSegment(s[1..], q);
    }
  }

  lemma {:induction false} LongerCommand(a: string, x: string)
    requires !Blank(a) && !Blank(x)
    ensures |Command(a)| == |Command(a + x)| == 1 && |Command(a)[0]| < |Command(a + x)[0]|
  {
    TrimEnds(a);
    TrimGrows(a, x);
  }

  lemma {:induction false} CommandsDiffer(
    before: seq<string>, last: string, x: string, more: seq<string>, other: seq<string>)
    requires !Blank(last) && !Blank(x)
    ensures Render(before + [last]) + other != Render(before + [last + x] + more)
  {
    RenderAppend(before, [last]);
    RenderAppend(before + [last + x], more);
    RenderAppend(before, [last + x]);
    RenderOne(last);
    RenderOne(last + x);
    LongerCommand(last, x);
    var n := |Render(before)|;
    assert (Render(before + [last]) + other)[n] == Command(last)[0];
    assert Render(before + [last + x] + more)[n] == Command(last + x)[0];
  }

  /** Whatever follows open quotes, unless blank, becomes part of their command. */
  lemma {:induction false} OpenTextMerges(s: string, rest: string, other: seq<string>)
    requires State(s, Closed) != Closed && !Blank(rest)
    ensures Commands(s) + other != Commands(s + rest)
  {
    var before, last := OpenSegmentNotBlank(s);
    var more := Segments(rest, State(s, Closed));
    SegmentsAppend(s, rest, Closed);
    SpliceSnoc(before, last, more);
    if Blank(more[0]) { OpenFirstSegment(rest, State(s, Closed)); }
    CommandsDiffer(before, last, more[0], more[1..], other);
  }

  lemma {:induction false} OpenThenSemicolon(sql: string, w: string)
    requires Blank(w) && State(sql, Closed) != Closed
    ensures Commands(sql + ";" + w) != Commands(sql)
  {
    assert !IsWhitespace((";" + w)[0]);
    OpenTextMerges(sql, ";" + w, []);
    assert sql + ";" + w == sql + (";" + w) && Commands(sql) + [] == Commands(sql);
  }

  /** Stripping the final ';' and trailing white space leaves the commands unchanged exactly when
      the quotes are closed before that ';'. */
  lemma {:induction false} ValidatedIsExecutedIff(sql: string, w: string)
    requires Blank(w)
    ensures Commands(sql) == Commands(sql + ";" + w) <==> State(sql, Closed) == Closed
  {
    if State(sql, Closed) == Closed { ClosedThenSemicolon(sql, w); } else { OpenThenSemicolon(sql, w); }
  }

  datatype Parsed = Statements(count: nat) | ParseError

  datatype Validation = Valid | Incomplete | InvalidDialect | EmptyStatement | InvalidStatement

  predicate Accepts(parse: string -> Parsed, line: string) {
    parse(line).Statements? && parse(line).count > 0
  }

  predicate FirstRefused(parse: string -> Parsed, lines: seq<string>, k: nat)
    requires k < |lines|
  {
    !Accepts(parse, lines[k]) && forall j :: 0 <= j < k ==> Accepts(parse, lines[j])
  }

  /** validate_input; `parser` is None when the dialect is unknown. */
  method ValidateInput(input: string, parser: Option<string -> Parsed>) returns (v: Validation)
    ensures (input == [] || input[|input| - 1] != ';') ==>
      v == if input != [] && input[0] == '\\' then Valid else Incomplete
    ensures input != [] && input[|input| - 1] == ';' ==>
      match parser
      case None => v == InvalidDialect
      case Some(parse) =>
        var lines := Commands(input[..|input| - 1]);
        if forall k :: 0 <= k < |lines| ==> Accepts(parse, lines[k]) then v == Valid
        else exists k ::
          && 0 <= k < |lines| && FirstRefused(parse, lines, k)
          && v == if parse(lines[k]).ParseError? then InvalidStatement else EmptyStatement
  {
    if input != [] && input[|input| - 1] == ';' {
      if parser == None { return InvalidDialect; }
      var parse := parser.value;
      var lines := SplitFromSemicolon(input[..|input| - 1]);
      for k := 0 to |lines|
        invariant forall j :: 0 <= j < k ==> Accepts(parse, lines[j])
      {
        assert !Accepts(parse, lines[k]) ==> FirstRefused(parse, lines, k);
        match parse(lines[k])
        case Statements(count) => if count == 0 { return EmptyStatement; }
        case ParseError => return InvalidStatement;
      }
      return Valid;
    }
    v := if input != [] && input[0] == '\\' then Valid else Incomplete;
  }

  lemma {:induction false} WithoutFinalSemicolon(t: string, w: string)
    requires t != [] && t[|t| - 1] == ';' && State(t, Closed) == Closed && Blank(w)
    ensures Commands(t + w) == Commands(t[..|t| - 1])
  {
    var sql := t[..|t| - 1];
    assert t == sql + ";";
    SemicolonKeepsState(sql);
    ClosedThenSemicolon(sql, w);
  }

  /** What the validator splits and what is executed, when the trimmed line closes its quotes. */
  lemma {:induction false} StrippedCommands(line: string)
    requires var t := TrimEnd(line); t != [] && t[|t| - 1] == ';' && State(t, Closed) == Closed
    ensures Commands(line) == Commands(TrimEnd(line)[..|TrimEnd(line)| - 1])
  {
    var t := TrimEnd(line);
    assert line == t + line[|t|..];
    WithoutFinalSemicolon(t, line[|t|..]);
  }

  /** A line accepted by the validator, with its quotes closed, executes only accepted commands. */
  method Validate(line: string, parser: Option<string -> Parsed>) returns (v: Validation)
    ensures v == Valid && !(TrimEnd(line) != [] && TrimEnd(line)[0] == '\\') ==>
      && parser.Some? && TrimEnd(line) != [] && TrimEnd(line)[|TrimEnd(line)| - 1] == ';'
      && (State(TrimEnd(line), Closed) == Closed ==>
            forall k :: 0 <= k < |Commands(line)| ==>
              parser.value(Commands(line)[k]).Statements? && parser.value(Commands(line)[k]).count > 0)
  {
    var input := TrimEnd(line);
    v := ValidateInput(input, parser);
    if input != [] && input[|input| - 1] == ';' && State(input, Closed) == Closed {
      StrippedCommands(line);
    }
  }

  // ----- splitting again -----

  ghost predicate ClosedPieces(segs: seq<string>) {
    forall i :: 0 <= i < |segs| ==> NoSeparator(segs[i], Closed) && State(segs[i], Closed) == Closed
  }

  /** Trimming keeps the quote state and adds no separator. */
  lemma {:induction false} TrimKeepsState(seg: string)
    requires NoSeparator(seg, Closed)
    ensures NoSeparator(Trim(seg), Closed) && State(Trim(seg), Closed) == State(seg, Closed)
  {
    var w, v := TrimSplits(seg);
    StateConcat(w + Trim(seg), v, Closed);
    StateConcat(w, Trim(seg), Closed);
    BlankKeepsState(w, Closed);
    BlankKeepsState(v, State(Trim(seg), Closed));
  }

  lemma {:induction false} OneCommandThen(t: string, rest: string)
    requires t != [] && Trim(t) == t && NoSeparator(t, Closed) && State(t, Closed) == Closed
    ensures Commands(t + ";" + rest) == [t + ";"] + Commands(rest)
  {
    CommandsAcrossSeparator(t, rest);
    WholeSegment(t, Closed);
    RenderOne(t);
  }

  lemma {:induction false} ConcatCommand(t: string, more: seq<string>)
    ensures Flatten([t + ";"] + more) == t + ";" + Flatten(more)
  {
    assert ([t + ";"] + more)[1..] == more;
  }

  lemma {:induction false} ConcatCommandThen(t: string, more: seq<string>, x: string)
    ensures Flatten([t + ";"] + more) + x == t + ";" + (Flatten(more) + x)
  {
    ConcatCommand(t, more);
    Assoc(t + ";", Flatten(more), x);
  }

  lemma {:induction false} ResplitStep(seg: string, more: seq<string>, x: string)
    requires NoSeparator(seg, Closed) && State(seg, Closed) == Closed && Trim(seg) != []
    requires Commands(Flatten(more) + x) == more + Commands(x)
    ensures Commands(Flatten([Trim(seg) + ";"] + more) + x) == [Trim(seg) + ";"] + more + Commands(x)
  {
    TrimKeepsState(seg);
    TrimEnds(seg);
    OneCommandThen(Trim(seg), Flatten(more) + x);
    ConcatCommandThen(Trim(seg), more, x);
    Assoc([Trim(seg) + ";"], more, Commands(x));
  }

  /** The commands of closed pieces, followed by any text, split into themselves and that text's commands. */
  lemma {:induction false} CommandsResplit(segs: seq<string>, x: string)
    requires ClosedPieces(segs)
    ensures Commands(Flatten(Render(segs)) + x) == Render(segs) + Commands(x)
  {
    if segs == [] {
      assert [] + x == x;
    } else {
      CommandsResplit(segs[1..], x);
      RenderHead(segs);
      if Trim(segs[0]) != [] { ResplitStep(segs[0], Render(segs[1..]), x); }
    }
  }

  lemma {:induction false} ClosedSegments(sql: string)
    requires State(sql, Closed) == Closed
    ensures ClosedPieces(Segments(sql, Closed))
  {
    SegmentsClean(sql, Closed);
    LastSegmentState(sql, Closed);
  }

  lemma {:induction false} ResplitClosed(sql: string)
    requires State(sql, Closed) == Closed
    ensures Commands(Flatten(Commands(sql))) == Commands(sql)
  {
    var segs := Segments(sql, Closed);
    ClosedSegments(sql);
    CommandsResplit(segs, []);
    assert Flatten(Render(segs)) + [] == Flatten(Render(segs));
    RenderOne([]);
  }

  lemma {:induction false} TrimWithSemicolon(t: string)
    requires t != [] && !IsWhitespace(t[0])
    ensures Trim(t + ";") == t + ";"
  {
    assert [] + (t + ";") + [] == t + ";";
    TrimUnique([], t + ";", []);
  }

  /** The command of a segment that ends inside quotes gains another ';' when it is split again. */
  lemma {:induction false} OpenCommandResplit(last: string)
    requires NoSeparator(last, Closed) && State(last, Closed) != Closed && !Blank(last)
    ensures Commands(Trim(last) + ";") == [Trim(last) + ";" + ";"]
  {
    var t := Trim(last);
    TrimKeepsState(last);
    TrimEnds(last);
    StateConcat(t, ";", Closed);
    assert ";"[1..] == [];
    WholeSegment(t + ";", Closed);
    RenderOne(t + ";");
    TrimWithSemicolon(t);
  }

  lemma {:induction false} ResplitOpen(sql: string)
    requires State(sql, Closed) != Closed
    ensures Commands(Flatten(Commands(sql))) != Commands(sql)
  {
    var before, last := OpenSegmentNotBlank(sql);
    var segs, t := Segments(sql, Closed), Trim(last);
    SegmentsAreSegmentation(sql, Closed);
    assert forall i :: 0 <= i < |before| ==> before[i] == segs[i];
    assert segs[|before|] == last;
    RenderAppend(before, [last]);
    RenderOne(last);
    TrimEnds(last);
    FlattenAppend(Render(before), [t + ";"]);
    ConcatCommand(t, []);
    assert [t + ";"] + [] == [t + ";"] && t + ";" + Flatten([]) == t + ";";
    CommandsResplit(before, t + ";");
    OpenCommandResplit(last);
    var n := |Render(before)|;
    assert |Commands(sql)[n]| < |Commands(Flatten(Commands(sql)))[n]|;
  }

  /** Splitting the concatenated output again gives the same list exactly when the quotes of the
      input are closed. */
  lemma {:induction false} ResplitIff(sql: string)
    ensures Commands(Flatten(Commands(sql))) == Commands(sql) <==> State(sql, Closed) == Closed
  {
    if State(sql, Closed) == Closed { ResplitClosed(sql); } else { ResplitOpen(sql); }
  }

  /** A single quote character: neither property holds. */
  lemma {:induction false} OpenQuoteFails()
    ensures Commands("'") != Commands("'" + ";" + "")
    ensures Commands(Flatten(Commands("'"))) != Commands("'")
  {
    assert "'"[1..] == [];
    assert State("'", Closed) == Single;
    ValidatedIsExecutedIff("'", "");
    ResplitIff("'");
  }
}
