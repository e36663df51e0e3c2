/** SQL macro functions (datafusion-examples/examples/builtin_functions/function_factory.rs:139-190):
    a call is replaced by the function body with $1, $2, ... replaced by the argument expressions.
    `transform` rewrites bottom-up, so inserted arguments are not visited again.
 */
module MacroExpansion {
  import opened Wrappers
  import opened MachineIntegers
  import opened Sequences

  /** A leaf is a column or a literal; a node is any operator or function call. */
  datatype Expr = Placeholder(id: string) | Leaf(name: string) | Node(op: string, children: seq<Expr>)

  datatype MacroError = NoDollar | NotANumber(id: string) | ArgumentMissing(id: string)

  predicate IsDigit(c: char) { '0' <= c <= '9' }

  predicate AllDigits(s: string) {
    forall i :: 0 <= i < |s| ==> IsDigit(s[i])
  }

  function Decimal(s: string): nat
    requires AllDigits(s)
  {
    if s == [] then 0 else
      assert IsDigit(s[|s| - 1]);
      10 * Decimal(s[..|s| - 1]) + (s[|s| - 1] as int - '0' as int)
  }

  /** usize::from_str: one optional '+', then at least one digit, within 64 bits. */
  function ParseUsize(s: string): Option<nat> {
    var digits := if |s| > 0 && s[0] == '+' then s[1..] else s;
    if digits != [] && AllDigits(digits) && Decimal(digits) <= USIZE_MAX
    then Some(Decimal(digits)) else None
  }

  /** parse_placeholder_identifier; the subtraction of 1 wraps around at 0. */
  function Position(id: string): Result<nat, MacroError> {
    if |id| == 0 || id[0] != '$' then Failure(NoDollar) else
      match ParseUsize(id[1..])
      case None => Failure(NotANumber(id))
      case Some(v) => Success(if v == 0 then USIZE_MAX else v - 1)
  }

  function Resolve(id: string, args: seq<Expr>): Result<Expr, MacroError> {
    match Position(id)
    case Failure(e) => Failure(e)
    case Success(p) => if p < |args| then Success(args[p]) else Failure(ArgumentMissing(id))
  }

  function Replacement(e: Expr, args: seq<Expr>): Result<Expr, MacroError>
    decreases e, 1
  {
    match e
    case Placeholder(id) => Resolve(id, args)
    case Leaf(_) => Success(e)
    case Node(op, children) =>
      match ReplaceAll(children, args)
      case Failure(err) => Failure(err)
      case Success(children') => Success(Node(op, children'))
  }

  function ReplaceAll(es: seq<Expr>, args: seq<Expr>): (r: Result<seq<Expr>, MacroError>)
    ensures r.Success? ==> |r.value| == |es|
    decreases es, 0
  {
    if es == [] then Success([]) else
      match Replacement(es[0], args)
      case Failure(err) => Failure(err)
      case Success(e) =>
        match ReplaceAll(es[1..], args)
        case Failure(err) => Failure(err)
        case Success(rest) => Success([e] + rest)
  }

  // ----- placeholder numbering -----

  function DecimalString(n: nat): (s: string)
    ensures s != [] && AllDigits(s)
  {
    var digit := ['0' + (n % 10) as char];
    if n < 10 then digit else DecimalString(n / 10) + digit
  }

  lemma {:induction false} DecimalRoundTrip(n: nat)
    ensures Decimal(DecimalString(n)) == n
  {
    if n < 10 {
    } else {
      DecimalRoundTrip(n / 10);
      var s := DecimalString(n);
      assert s[..|s| - 1] == DecimalString(n / 10);
    }
  }

  /** $n names argument n, counting from one; $0 never resolves. */
  lemma {:induction false} DollarNames(n: nat, args: seq<Expr>)
    requires n <= USIZE_MAX && |args| <= USIZE_MAX
    ensures Resolve("$" + DecimalString(n), args)
         == if 1 <= n <= |args| then Success(args[n - 1]) else Failure(ArgumentMissing("$" + DecimalString(n)))
  {
    var id := "$" + DecimalString(n);
    assert id[1..] == DecimalString(n);
    assert IsDigit(id[1]);
    DecimalRoundTrip(n);
  }

  ghost function Zeros(k: nat): (s: string)
    ensures |s| == k && forall i :: 0 <= i < k ==> s[i] == '0'
  {
    seq(k, _ => '0')
  }

  /** The digits of n, after any number of zeros. */
  ghost predicate Numeral(digits: string, k: nat, n: nat) {
    digits == Zeros(k) + DecimalString(n)
  }

  lemma {:induction false} NumeralValue(k: nat, n: nat)
    ensures var s := Zeros(k) + DecimalString(n); AllDigits(s) && Decimal(s) == n
  {
    var s := Zeros(k) + DecimalString(n);
    var init := s[..|s| - 1];
    if n < 10 {
      assert init == Zeros(k);
      ZerosAreZero(k);
    } else {
      NumeralValue(k, n / 10);
      assert init == Zeros(k) + DecimalString(n / 10);
    }
  }

  lemma {:induction false} ZerosAreZero(k: nat)
    ensures Decimal(Zeros(k)) == 0
  {
    if k == 0 {
    } else {
      ZerosAreZero(k - 1);
      assert Zeros(k)[..k - 1] == Zeros(k - 1);
    }
  }

  /** Every text of digits is a numeral. */
  lemma {:induction false} DigitsAreNumeral(s: string) returns (k: nat)
    requires s != [] && AllDigits(s)
    ensures Numeral(s, k, Decimal(s))
  {
    var init, c := s[..|s| - 1], s[|s| - 1];
    assert s == init + [c] && IsDigit(c);
    if init == [] {
      k := 0;
      assert Zeros(0) + DecimalString(Decimal(s)) == s;
    } else {
      k := DigitsAreNumeral(init);
      if Decimal(init) == 0 {
        assert init == Zeros(k) + "0" == Zeros(k + 1);
        k := k + 1;
      } else {
        assert DecimalString(Decimal(s)) == DecimalString(Decimal(init)) + [c];
        Assoc(Zeros(k), DecimalString(Decimal(init)), [c]);
      }
    }
  }

  /** s is a numeral of n, with or without a plus sign. */
  ghost predicate Spells(s: string, n: nat) {
    exists k: nat :: Numeral(s, k, n) || (s != [] && s[0] == '+' && Numeral(s[1..], k, n))
  }

  lemma {:induction false} ParsesIff(s: string, n: nat)
    ensures ParseUsize(s) == Some(n) <==> n <= USIZE_MAX && Spells(s, n)
  {
    var digits := if s != [] && s[0] == '+' then s[1..] else s;
    if ParseUsize(s) == Some(n) {
      var k := DigitsAreNumeral(digits);
      assert Numeral(digits, k, n);
    }
    if Spells(s, n) {
      var k: nat :| Numeral(s, k, n) || (s != [] && s[0] == '+' && Numeral(s[1..], k, n));
      NumeralValue(k, n);
      assert IsDigit((Zeros(k) + DecimalString(n))[0]);
      assert digits == Zeros(k) + DecimalString(n);
    }
  }

  /** What every placeholder resolves to: the argument it names counting from one, or which error. */
  lemma {:induction false} ResolveIff(id: string, args: seq<Expr>)
    requires |args| <= USIZE_MAX
    ensures Resolve(id, args) == Failure(NoDollar) <==> id == [] || id[0] != '$'
    ensures Resolve(id, args) == Failure(NotANumber(id)) <==>
      id != [] && id[0] == '$' && forall n: nat :: n <= USIZE_MAX ==> !Spells(id[1..], n)
    ensures forall n: nat :: n <= USIZE_MAX && id != [] && id[0] == '$' && Spells(id[1..], n) ==>
      Resolve(id, args) == if 1 <= n <= |args| then Success(args[n - 1]) else Failure(ArgumentMissing(id))
  {
    if id != [] && id[0] == '$' {
      forall n: nat ensures ParseUsize(id[1..]) == Some(n) <==> n <= USIZE_MAX && Spells(id[1..], n) {
        ParsesIff(id[1..], n);
      }
      var parsed := ParseUsize(id[1..]);
      if parsed.Some? { assert Spells(id[1..], parsed.value); }
    }
  }

  // ----- when expansion succeeds -----

  /** Placeholder ids in the order the rewrite meets them. */
  ghost function Ids(e: Expr): seq<string>
    decreases e, 1
  {
    match e
    case Placeholder(id) => [id]
    case Leaf(_) => []
    case Node(_, children) => IdsAll(children)
  }

  ghost function IdsAll(es: seq<Expr>): seq<string>
    decreases es, 0
  {
    if es == [] then [] else Ids(es[0]) + IdsAll(es[1..])
  }

  ghost function FirstFailure(ids: seq<string>, args: seq<Expr>): (r: Option<MacroError>)
    ensures r == None <==> forall id :: id in ids ==> Resolve(id, args).Success?
  {
    if ids == [] then None
    else if Resolve(ids[0], args).Failure? then Some(Resolve(ids[0], args).error)
    else FirstFailure(ids[1..], args)
  }

  lemma {:induction false} FirstFailureAppend(a: seq<string>, b: seq<string>, args: seq<Expr>)
    ensures FirstFailure(a + b, args)
         == if FirstFailure(a, args) == None then FirstFailure(b, args) else FirstFailure(a, args)
  {
    if a == [] {
      assert a + b == b;
    } else {
      assert (a + b)[1..] == a[1..] + b;
      FirstFailureAppend(a[1..], b, args);
    }
  }

  /** Expansion succeeds exactly when every placeholder of the body resolves, and otherwise reports
      the first one that does not. */
  lemma {:induction false} ExpansionSucceedsIff(e: Expr, args: seq<Expr>)
    ensures match Replacement(e, args)
      case Success(_) => FirstFailure(Ids(e), args) == None
      case Failure(err) => FirstFailure(Ids(e), args) == Some(err)
    decreases e, 1
  {
    match e
    case Placeholder(id) => assert FirstFailure([id][1..], args) == None;
    case Leaf(_) =>
    case Node(_, children) => ExpansionsSucceedIff(children, args);
  }

  lemma {:induction false} ExpansionsSucceedIff(es: seq<Expr>, args: seq<Expr>)
    ensures match ReplaceAll(es, args)
      case Success(_) => FirstFailure(IdsAll(es), args) == None
      case Failure(err) => FirstFailure(IdsAll(es), args) == Some(err)
    decreases es, 0
  {
    if es == [] {
    } else {
      ExpansionSucceedsIff(es[0], args);
      ExpansionsSucceedIff(es[1..], args);
      FirstFailureAppend(Ids(es[0]), IdsAll(es[1..]), args);
    }
  }

  // ----- meaning -----

  /** Evaluation under any interpretation of leaves, operators and placeholders. */
  ghost function Eval<V>(e: Expr, leaf: string -> V, ops: (string, seq<V>) -> V, ph: string -> V): V
    decreases e, 1
  {
    match e
    case Placeholder(id) => ph(id)
    case Leaf(name) => leaf(name)
    case Node(op, children) => ops(op, EvalAll(children, leaf, ops, ph))
  }

  ghost function EvalAll<V>(es: seq<Expr>, leaf: string -> V, ops: (string, seq<V>) -> V, ph: string -> V): (vs: seq<V>)
    ensures |vs| == |es|
    ensures forall i :: 0 <= i < |es| ==> vs[i] == Eval(es[i], leaf, ops, ph)
    decreases es, 0
  {
    if es == [] then [] else [Eval(es[0], leaf, ops, ph)] + EvalAll(es[1..], leaf, ops, ph)
  }

  /** ph, except that placeholders naming an argument stand for that argument's value. */
  ghost function Bind<V>(args: seq<Expr>, leaf: string -> V, ops: (string, seq<V>) -> V, ph: string -> V): string -> V {
    id => if Resolve(id, args).Success? then Eval(Resolve(id, args).value, leaf, ops, ph) else ph(id)
  }

  /** The expanded body means what the body means with $i bound to the value of argument i. */
  lemma {:induction false} ExpansionPreservesMeaning<V>(
    e: Expr, args: seq<Expr>, leaf: string -> V, ops: (string, seq<V>) -> V, ph: string -> V)
    requires Replacement(e, args).Success?
    ensures Eval(Replacement(e, args).value, leaf, ops, ph) == Eval(e, leaf, ops, Bind(args, leaf, ops, ph))
    decreases e, 1
  {
    if e.Node? { ExpansionsPreserveMeaning(e.children, args, leaf, ops, ph); }
  }

  lemma {:induction false} ExpansionsPreserveMeaning<V>(
    es: seq<Expr>, args: seq<Expr>, leaf: string -> V, ops: (string, seq<V>) -> V, ph: string -> V)
    requires ReplaceAll(es, args).Success?
    ensures EvalAll(ReplaceAll(es, args).value, leaf, ops, ph) == EvalAll(es, leaf, ops, Bind(args, leaf, ops, ph))
    decreases es, 0
  {
    if es == [] {
    } else {
      ExpansionPreservesMeaning(es[0], args, leaf, ops, ph);
      ExpansionsPreserveMeaning(es[1..], args, leaf, ops, ph);
    }
  }

  /** Only the placeholders that occur matter. */
  lemma {:induction false} EvalFrame<V>(
    e: Expr, leaf: string -> V, ops: (string, seq<V>) -> V, ph: string -> V, ph': string -> V)
    requires forall id :: id in Ids(e) ==> ph(id) == ph'(id)
    ensures Eval(e, leaf, ops, ph) == Eval(e, leaf, ops, ph')
    decreases e, 1
  {
    if e.Node? {
      EvalAllFrame(e.children, leaf, ops, ph, ph');
    } else if e.Placeholder? {
      assert e.id in Ids(e);
    }
  }

  lemma {:induction false} EvalAllFrame<V>(
    es: seq<Expr>, leaf: string -> V, ops: (string, seq<V>) -> V, ph: string -> V, ph': string -> V)
    requires forall id :: id in IdsAll(es) ==> ph(id) == ph'(id)
    ensures EvalAll(es, leaf, ops, ph) == EvalAll(es, leaf, ops, ph')
    decreases es, 0
  {
    if es == [] {
    } else {
      EvalFrame(es[0], leaf, ops, ph, ph');
      EvalAllFrame(es[1..], leaf, ops, ph, ph');
    }
  }

  /** Placeholders read from a list of argument values. */
  ghost function Parameters<V>(vals: seq<V>, ph: string -> V): string -> V {
    id => match Position(id) case Success(p) => (if p < |vals| then vals[p] else ph(id)) case Failure(_) => ph(id)
  }

  /** f is interpreted as the function its body defines. */
  ghost predicate Defines<V(!new)>(
    f: string, body: Expr, leaf: string -> V, ops: (string, seq<V>) -> V, ph: string -> V)
  {
    forall vals: seq<V> :: ops(f, vals) == Eval(body, leaf, ops, Parameters(vals, ph))
  }

  /** simplify: replacing a call of a macro by its expansion does not change its value. */
  lemma {:induction false} SimplifyPreservesMeaning<V(!new)>(
    f: string, body: Expr, args: seq<Expr>, leaf: string -> V, ops: (string, seq<V>) -> V, ph: string -> V)
    requires Defines(f, body, leaf, ops, ph) && Replacement(body, args).Success?
    ensures Eval(Replacement(body, args).value, leaf, ops, ph) == Eval(Node(f, args), leaf, ops, ph)
  {
    var vals := EvalAll(args, leaf, ops, ph);
    ExpansionPreservesMeaning(body, args, leaf, ops, ph);
    ExpansionSucceedsIff(body, args);
    EvalFrame(body, leaf, ops, Bind(args, leaf, ops, ph), Parameters(vals, ph));
  }

  // ----- composition -----

  lemma {:induction false} ReplaceAllAt(es: seq<Expr>, args: seq<Expr>, i: nat)
    requires ReplaceAll(es, args).Success? && i < |es|
    ensures Replacement(es[i], args) == Success(ReplaceAll(es, args).value[i])
  {
    if i == 0 {
    } else {
      ReplaceAllAt(es[1..], args, i - 1);
    }
  }

  /** Two expansions in a row are one expansion with the arguments expanded first. */
  lemma {:induction false} ExpansionsCompose(e: Expr, args: seq<Expr>, inner: seq<Expr>)
    requires Replacement(e, args).Success? && ReplaceAll(args, inner).Success?
    ensures Replacement(Replacement(e, args).value, inner) == Replacement(e, ReplaceAll(args, inner).value)
    decreases e, 1
  {
    match e
    case Placeholder(id) => ReplaceAllAt(args, inner, Position(id).value);
    case Leaf(_) =>
    case Node(_, children) => ExpansionListsCompose(children, args, inner);
  }

  lemma {:induction false} ExpansionListsCompose(es: seq<Expr>, args: seq<Expr>, inner: seq<Expr>)
    requires ReplaceAll(es, args).Success? && ReplaceAll(args, inner).Success?
    ensures ReplaceAll(ReplaceAll(es, args).value, inner) == ReplaceAll(es, ReplaceAll(args, inner).value)
    decreases es, 0
  {
    if es == [] {
    } else {
      ExpansionsCompose(es[0], args, inner);
      ExpansionListsCompose(es[1..], args, inner);
    }
  }

  /** The second expansion of a chain succeeds exactly when every argument the body uses expands. */
  lemma {:induction false} SecondExpansionIff(e: Expr, args: seq<Expr>, inner: seq<Expr>)
    requires Replacement(e, args).Success?
    ensures Replacement(Replacement(e, args).value, inner).Success?
       <==> forall id :: id in Ids(e) && Resolve(id, args).Success? ==>
              Replacement(Resolve(id, args).value, inner).Success?
    decreases e, 1
  {
    match e
    case Placeholder(id) => assert id in Ids(e);
    case Leaf(_) =>
    case Node(_, children) => SecondExpansionsIff(children, args, inner);
  }

  lemma {:induction false} SecondExpansionsIff(es: seq<Expr>, args: seq<Expr>, inner: seq<Expr>)
    requires ReplaceAll(es, args).Success?
    ensures ReplaceAll(ReplaceAll(es, args).value, inner).Success?
       <==> forall id :: id in IdsAll(es) && Resolve(id, args).Success? ==>
              Replacement(Resolve(id, args).value, inner).Success?
    decreases es, 0
  {
    if es == [] {
    } else {
      SecondExpansionIff(es[0], args, inner);
      SecondExpansionsIff(es[1..], args, inner);
    }
  }
}
