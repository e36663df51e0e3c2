/** Plan serialization that preserves adapters
    (datafusion-examples/examples/custom_data_source/adapter_serialization.rs:270-433, 460-494).

    The library's default encoding of a scan drops its adapter and hands child plans back to the
    converter.  `printable` says which characters Rust's Debug formatting leaves alone.
 */
module AdapterCodec {
  import opened Wrappers

  datatype Adapter = Metadata(tag: string) | Foreign(debug: string)

  /** A file scan, any plan the library can serialize, or one it cannot. */
  datatype Plan =
    | FileScan(config: string, adapter: Option<Adapter>)
    | Inner(op: string, children: seq<Plan>)
    | Custom(name: string)

  /** Extension bytes: JSON of the extension payload, or anything else. */
  datatype Payload = Json(marker: string, tag: string) | OtherBytes(bytes: string)

  datatype Proto =
    | ScanProto(config: string)
    | InnerProto(op: string, inputs: seq<Proto>)
    | Extension(node: Payload, inputs: seq<Proto>)

  datatype CodecError = CannotEncode | MissingChild | WrongChildCount | UnknownExtension

  const MARKER := "adapter_preserving_extension_v1"

  // ----- reading the tag out of Debug output -----

  predicate MatchAt(s: string, p: string, i: nat) {
    i + |p| <= |s| && s[i..i + |p|] == p
  }

  lemma {:induction false} ShiftMatches(s: string, p: string)
    requires s != []
    ensures forall j: nat :: j > 0 ==> (MatchAt(s, p, j) <==> MatchAt(s[1..], p, j - 1))
  {
    forall j: nat | j > 0 ensures MatchAt(s, p, j) <==> MatchAt(s[1..], p, j - 1) {
      if j + |p| <= |s| {
        var a, b := s[j..j + |p|], s[1..][j - 1..j - 1 + |p|];
        assert forall k :: 0 <= k < |p| ==> a[k] == s[j + k] == b[k];
        assert a == b;
      }
    }
  }

  /** str::find: the first match. */
  function Find(s: string, p: string): (r: Option<nat>)
    ensures r.Some? ==> MatchAt(s, p, r.value) && forall j: nat :: j < r.value ==> !MatchAt(s, p, j)
    ensures r == None ==> forall j: nat :: !MatchAt(s, p, j)
  {
    if MatchAt(s, p, 0) then Some(0)
    else if s == [] then None
    else
      ShiftMatches(s, p);
      match Find(s[1..], p) case Some(i) => Some(i + 1) case None => None
  }

  function Hex(n: nat): (s: string)
    ensures '"' !in s
  {
    var digit := ["0123456789abcdef"[n % 16]];
    if n < 16 then digit else Hex(n / 16) + digit
  }

  /** Debug formatting of one character of a string. */
  function EscapeChar(printable: char -> bool, c: char): (s: string)
    ensures |s| >= 1 && (c != '"' ==> '"' !in s) && (s != [c] ==> |s| >= 2)
  {
    if c == '"' then "\\\""
    else if c == '\\' then "\\\\"
    else if c == '\n' then "\\n"
    else if c == '\r' then "\\r"
    else if c == '\t' then "\\t"
    else if c == '\0' then "\\0"
    else if printable(c) then [c]
    else "\\u{" + Hex(c as int) + "}"
  }

  function Escape(printable: char -> bool, s: string): string {
    if s == [] then [] else EscapeChar(printable, s[0]) + Escape(printable, s[1..])
  }

  const DEBUG_PREFIX := "MetadataAdapterFactory { tag: \""

  function Debug(printable: char -> bool, a: Adapter): string {
    match a
    case Metadata(tag) => DEBUG_PREFIX + Escape(printable, tag) + "\" }"
    case Foreign(debug) => debug
  }

  function ExtractTag(debug: string): Option<string> {
    if Find(debug, "MetadataAdapterFactory") == None then None else
      match Find(debug, "tag: \"")
      case None => None
      case Some(start) =>
        var after := debug[start + 6..];
        match Find(after, "\"")
        case None => None
        case Some(end) => Some(after[..end])
  }

  /** No character of s is changed by Debug formatting. */
  ghost predicate Plain(printable: char -> bool, s: string) {
    forall i :: 0 <= i < |s| ==> EscapeChar(printable, s[i]) == [s[i]]
  }

  /** Plain text is printable and has no quote, backslash or control character with an escape of its own. */
  lemma {:induction false} PlainIff(printable: char -> bool, s: string)
    ensures Plain(printable, s) <==> forall i :: 0 <= i < |s| ==>
      printable(s[i]) && s[i] !in {'"', '\\', '\n', '\r', '\t', '\0'}
  {
    forall i | 0 <= i < |s|
      ensures EscapeChar(printable, s[i]) == [s[i]] <==>
        printable(s[i]) && s[i] !in {'"', '\\', '\n', '\r', '\t', '\0'}
    {
      assert |EscapeChar(printable, s[i])| >= 2 || EscapeChar(printable, s[i]) == [s[i]];
    }
  }

  lemma {:induction false} EscapePlainIff(printable: char -> bool, s: string)
    ensures Plain(printable, s) ==> Escape(printable, s) == s
    ensures !Plain(printable, s) ==> |Escape(printable, s)| > |s|
    ensures |Escape(printable, s)| >= |s|
    ensures '"' !in s ==> '"' !in Escape(printable, s)
  {
    if s == [] {
    } else {
      EscapePlainIff(printable, s[1..]);
      assert s == [s[0]] + s[1..];
      if Plain(printable, s[1..]) && EscapeChar(printable, s[0]) == [s[0]] { assert Plain(printable, s); }
    }
  }

  /** The tag starts right after the fixed prefix. */
  lemma {:induction false} FindTag(rest: string)
    ensures Find(DEBUG_PREFIX + rest, "MetadataAdapterFactory").Some?
    ensures Find(DEBUG_PREFIX + rest, "tag: \"") == Some(25)
    ensures (DEBUG_PREFIX + rest)[31..] == rest
  {
    var d := DEBUG_PREFIX + rest;
    assert |DEBUG_PREFIX| == 31;
    assert d[0..22] == DEBUG_PREFIX[0..22] == "MetadataAdapterFactory";
    assert MatchAt(d, "MetadataAdapterFactory", 0);
    assert d[25..31] == DEBUG_PREFIX[25..31] == "tag: \"";
    assert MatchAt(d, "tag: \"", 25);
    assert forall k :: 0 <= k < 27 ==> DEBUG_PREFIX[k] != 'g';
    forall j: nat | j < 25 ensures !MatchAt(d, "tag: \"", j) {
      if j + 6 <= |d| {
        assert d[j..j + 6][2] == DEBUG_PREFIX[j + 2];
        assert "tag: \""[2] == 'g';
      }
    }
  }

  /** The first quote of a text ends its longest prefix without quotes. */
  lemma {:induction false} FindQuote(s: string) returns (end: nat)
    requires '"' in s
    ensures Find(s, "\"") == Some(end) && end < |s| && s[end] == '"' && '"' !in s[..end]
  {
    var i :| 0 <= i < |s| && s[i] == '"';
    assert MatchAt(s, "\"", i) by { assert s[i..i + 1] == "\""; }
    end := Find(s, "\"").value;
    assert s[end] == s[end..end + 1][0];
    forall j: nat | j < end ensures s[j] != '"' {
      assert !MatchAt(s, "\"", j);
      assert s[j..j + 1] == [s[j]];
    }
  }

  lemma {:induction false} ExtractAfterPrefix(rest: string) returns (end: nat)
    requires '"' in rest
    ensures end < |rest| && rest[end] == '"' && '"' !in rest[..end]
    ensures ExtractTag(DEBUG_PREFIX + rest) == Some(rest[..end])
  {
    FindTag(rest);
    end := FindQuote(rest);
  }

  /** Extraction from a metadata factory always finds a tag, and it is the factory's own tag
      exactly when no character of it needs escaping. */
  lemma {:induction false} TagSurvivesIff(printable: char -> bool, tag: string)
    ensures ExtractTag(Debug(printable, Metadata(tag))).Some?
    ensures ExtractTag(Debug(printable, Metadata(tag))) == Some(tag) <==> Plain(printable, tag)
  {
    var e := Escape(printable, tag);
    var after := e + "\" }";
    assert Debug(printable, Metadata(tag)) == DEBUG_PREFIX + after;
    assert after[|e|] == '"';
    var end := ExtractAfterPrefix(after);
    EscapePlainIff(printable, tag);
    if '"' in tag {
      var i :| 0 <= i < |tag| && tag[i] == '"';
      assert EscapeChar(printable, tag[i]) != [tag[i]];
    } else {
      assert end == |e|;
      assert after[..end] == e;
    }
  }

  /** tag lies between the first `tag: "` of the text and the next quote, and the text names the factory. */
  ghost predicate TagIn(debug: string, start: nat, tag: string) {
    && (exists i: nat :: MatchAt(debug, "MetadataAdapterFactory", i))
    && MatchAt(debug, "tag: \"", start) && (forall j: nat :: j < start ==> !MatchAt(debug, "tag: \"", j))
    && tag + "\"" <= debug[start + 6..] && '"' !in tag
  }

  lemma {:induction false} ExtractedTagIn(debug: string)
    requires ExtractTag(debug).Some?
    ensures TagIn(debug, Find(debug, "tag: \"").value, ExtractTag(debug).value)
  {
    var after := debug[Find(debug, "tag: \"").value + 6..];
    var end := Find(after, "\"").value;
    assert after[end..end + 1][0] == after[end];
    var e := FindQuote(after);
    assert after[..end] + "\"" == after[..end + 1];
  }

  lemma {:induction false} FindIs(s: string, p: string, i: nat)
    requires MatchAt(s, p, i) && forall j: nat :: j < i ==> !MatchAt(s, p, j)
    ensures Find(s, p) == Some(i)
  {
  }

  lemma {:induction false} QuoteEnds(t: string, s: string)
    requires t + "\"" <= s && '"' !in t
    ensures Find(s, "\"") == Some(|t|) && s[..|t|] == t
  {
    assert s[|t|] == (t + "\"")[|t|] == '"';
    assert forall i :: 0 <= i < |t| ==> s[i] == (t + "\"")[i] == t[i];
    var end := FindQuote(s);
    assert end >= |t|;
    assert forall i :: 0 <= i < end ==> s[i] in s[..end];
  }

  lemma {:induction false} FindTagIn(debug: string, start: nat, tag: string)
    requires TagIn(debug, start, tag)
    ensures ExtractTag(debug) == Some(tag)
  {
    FindIs(debug, "tag: \"", start);
    QuoteEnds(tag, debug[start + 6..]);
  }

  /** For any Debug output, of any adapter. */
  lemma {:induction false} ExtractTagIff(debug: string, tag: string)
    ensures ExtractTag(debug) == Some(tag) <==> exists start: nat :: TagIn(debug, start, tag)
  {
    if ExtractTag(debug) == Some(tag) { ExtractedTagIn(debug); }
    if start: nat :| TagIn(debug, start, tag) { FindTagIn(debug, start, tag); }
  }

  lemma {:induction false} EscapeAppend(printable: char -> bool, a: string, b: string)
    ensures Escape(printable, a + b) == Escape(printable, a) + Escape(printable, b)
  {
    if a == [] {
      assert a + b == b;
    } else {
      assert (a + b)[1..] == a[1..] + b;
      EscapeAppend(printable, a[1..], b);
    }
  }

  lemma {:induction false} TextExtracted(t: string, rest: string)
    requires '"' !in t
    ensures ExtractTag(DEBUG_PREFIX + (t + "\"" + rest)) == Some(t)
  {
    FindTag(t + "\"" + rest);
    QuoteEnds(t, t + "\"" + rest);
  }

  lemma {:induction false} EscapeQuote(printable: char -> bool, a: string, b: string)
    ensures Escape(printable, a + "\"" + b) == Escape(printable, a) + "\\" + "\"" + Escape(printable, b)
  {
    EscapeAppend(printable, a + "\"", b);
    EscapeAppend(printable, a, "\"");
    assert Escape(printable, "\"") == "\\" + "\"" + [];
  }

  /** A tag without quotes comes out escaped. */
  lemma {:induction false} UnquotedTag(printable: char -> bool, a: string)
    requires '"' !in a
    ensures ExtractTag(Debug(printable, Metadata(a))) == Some(Escape(printable, a))
  {
    var e := Escape(printable, a);
    EscapePlainIff(printable, a);
    TextExtracted(e, " }");
    assert DEBUG_PREFIX + e + "\" }" == DEBUG_PREFIX + (e + "\"" + " }");
  }

  /** A tag with a quote is cut there, and a backslash takes the place of the quote. */
  lemma {:induction false} QuotedTag(printable: char -> bool, a: string, b: string)
    requires '"' !in a
    ensures ExtractTag(Debug(printable, Metadata(a + "\"" + b))) == Some(Escape(printable, a) + "\\")
  {
    var t, rest := Escape(printable, a) + "\\", Escape(printable, b) + "\" }";
    EscapePlainIff(printable, a);
    TextExtracted(t, rest);
    EscapeQuote(printable, a, b);
    assert DEBUG_PREFIX + (t + "\"" + Escape(printable, b)) + "\" }" == DEBUG_PREFIX + (t + "\"" + rest);
  }

  // ----- encoding and decoding -----

  function Encode(printable: char -> bool, plan: Plan): Result<Proto, CodecError>
    decreases plan, 2
  {
    if plan.FileScan? && plan.adapter.Some? && ExtractTag(Debug(printable, plan.adapter.value)).Some? then
      Success(Extension(Json(MARKER, ExtractTag(Debug(printable, plan.adapter.value)).value), [ScanProto(plan.config)]))
    else EncodeDefault(printable, plan)
  }

  function EncodeDefault(printable: char -> bool, plan: Plan): Result<Proto, CodecError>
    decreases plan, 1
  {
    match plan
    case FileScan(config, _) => Success(ScanProto(config))
    case Inner(op, children) =>
      (match EncodeAll(printable, children)
       case Success(inputs) => Success(InnerProto(op, inputs))
       case Failure(e) => Failure(e))
    case Custom(_) => Failure(CannotEncode)
  }

  function EncodeAll(printable: char -> bool, plans: seq<Plan>): Result<seq<Proto>, CodecError>
    decreases plans, 0
  {
    if plans == [] then Success([]) else
      match Encode(printable, plans[0])
      case Failure(e) => Failure(e)
      case Success(p) =>
        match EncodeAll(printable, plans[1..])
        case Failure(e) => Failure(e)
        case Success(rest) => Success([p] + rest)
  }

  function Inject(plan: Plan, a: Adapter): Plan {
    if plan.FileScan? then plan.(adapter := Some(a)) else plan
  }

  predicate IsMarked(p: Proto) {
    p.Extension? && p.node.Json? && p.node.marker == MARKER
  }

  function TryDecode(node: Payload, inputs: seq<Plan>): Result<Plan, CodecError> {
    if node.Json? && node.marker == MARKER then
      if |inputs| != 1 then Failure(WrongChildCount) else Success(Inject(inputs[0], Metadata(node.tag)))
    else Failure(UnknownExtension)
  }

  /** proto_to_execution_plan: the interception on decoding. */
  function Decode(p: Proto): Result<Plan, CodecError>
    decreases p, 2
  {
    if IsMarked(p) then
      if p.inputs == [] then Failure(MissingChild) else
        match DecodeDefault(p.inputs[0])
        case Failure(e) => Failure(e)
        case Success(plan) => Success(Inject(plan, Metadata(p.node.tag)))
    else DecodeDefault(p)
  }

  function DecodeDefault(p: Proto): Result<Plan, CodecError>
    decreases p, 1
  {
    match p
    case ScanProto(config) => Success(FileScan(config, None))
    case InnerProto(op, inputs) =>
      (match DecodeAll(inputs)
       case Success(children) => Success(Inner(op, children))
       case Failure(e) => Failure(e))
    case Extension(node, inputs) =>
      (match DecodeAll(inputs)
       case Success(children) => TryDecode(node, children)
       case Failure(e) => Failure(e))
  }

  function DecodeAll(ps: seq<Proto>): Result<seq<Plan>, CodecError>
    decreases ps, 0
  {
    if ps == [] then Success([]) else
      match Decode(ps[0])
      case Failure(e) => Failure(e)
      case Success(plan) =>
        match DecodeAll(ps[1..])
        case Failure(e) => Failure(e)
        case Success(rest) => Success([plan] + rest)
  }

  // ----- what a round trip yields -----

  /** The adapter a scan has after a round trip. */
  ghost function AdapterAfter(printable: char -> bool, a: Option<Adapter>): Option<Adapter> {
    if a == None || ExtractTag(Debug(printable, a.value)) == None then None
    else Some(Metadata(ExtractTag(Debug(printable, a.value)).value))
  }

  ghost function After(printable: char -> bool, plan: Plan): Plan
    decreases plan, 1
  {
    match plan
    case FileScan(config, a) => FileScan(config, AdapterAfter(printable, a))
    case Inner(op, children) => Inner(op, AfterAll(printable, children))
    case Custom(_) => plan
  }

  ghost function AfterAll(printable: char -> bool, plans: seq<Plan>): seq<Plan>
    decreases plans, 0
  {
    if plans == [] then [] else [After(printable, plans[0])] + AfterAll(printable, plans[1..])
  }

  lemma {:induction false} DecodeEncoded(printable: char -> bool, plan: Plan)
    requires Encode(printable, plan).Success?
    ensures Decode(Encode(printable, plan).value) == Success(After(printable, plan))
    decreases plan, 1
  {
    if plan.Inner? { DecodeAllEncoded(printable, plan.children); }
  }

  lemma {:induction false} DecodeAllEncoded(printable: char -> bool, plans: seq<Plan>)
    requires EncodeAll(printable, plans).Success?
    ensures DecodeAll(EncodeAll(printable, plans).value) == Success(AfterAll(printable, plans))
    decreases plans, 0
  {
    if plans == [] {
    } else {
      DecodeEncoded(printable, plans[0]);
      DecodeAllEncoded(printable, plans[1..]);
    }
  }

  /** Every scan, at any depth, has no adapter or a metadata adapter with a plain tag. */
  ghost predicate Preservable(printable: char -> bool, plan: Plan) {
    match plan
    case FileScan(_, None) => true
    case FileScan(_, Some(a)) => a.Metadata? && Plain(printable, a.tag)
    case Inner(_, children) => forall i :: 0 <= i < |children| ==> Preservable(printable, children[i])
    case Custom(_) => false
  }

  ghost predicate Encodable(plan: Plan) {
    match plan
    case FileScan(_, _) => true
    case Inner(_, children) => forall i :: 0 <= i < |children| ==> Encodable(children[i])
    case Custom(_) => false
  }

  lemma {:induction false} EncodesIff(printable: char -> bool, plan: Plan)
    ensures Encode(printable, plan).Success? <==> Encodable(plan)
    decreases plan, 1
  {
    if plan.Inner? { EncodesAllIff(printable, plan.children); }
  }

  lemma {:induction false} EncodesAllIff(printable: char -> bool, plans: seq<Plan>)
    ensures EncodeAll(printable, plans).Success? <==> forall i :: 0 <= i < |plans| ==> Encodable(plans[i])
    decreases plans, 0
  {
    if plans == [] {
    } else {
      EncodesIff(printable, plans[0]);
      EncodesAllIff(printable, plans[1..]);
      assert forall i :: 0 < i < |plans| ==> plans[i] == plans[1..][i - 1];
    }
  }

  lemma {:induction false} UnchangedIff(printable: char -> bool, plan: Plan)
    ensures Encodable(plan) && After(printable, plan) == plan <==> Preservable(printable, plan)
    decreases plan, 1
  {
    match plan
    case FileScan(_, a) => if a.Some? && a.value.Metadata? { TagSurvivesIff(printable, a.value.tag); }
    case Inner(_, children) => UnchangedAllIff(printable, children);
    case Custom(_) =>
  }

  lemma {:induction false} UnchangedAllIff(printable: char -> bool, plans: seq<Plan>)
    ensures (forall i :: 0 <= i < |plans| ==> Encodable(plans[i])) && AfterAll(printable, plans) == plans
       <==> forall i :: 0 <= i < |plans| ==> Preservable(printable, plans[i])
    decreases plans, 0
  {
    if plans == [] {
    } else {
      UnchangedIff(printable, plans[0]);
      UnchangedAllIff(printable, plans[1..]);
      assert forall i :: 0 < i < |plans| ==> plans[i] == plans[1..][i - 1];
      assert AfterAll(printable, plans)[1..] == AfterAll(printable, plans[1..]);
      assert plans == [plans[0]] + plans[1..];
    }
  }

  /** A plan comes back unchanged exactly when every scan's adapter can be preserved. */
  lemma {:induction false} RoundTripIff(printable: char -> bool, plan: Plan)
    ensures (Encode(printable, plan).Success? && Decode(Encode(printable, plan).value) == Success(plan))
       <==> Preservable(printable, plan)
  {
    EncodesIff(printable, plan);
    UnchangedIff(printable, plan);
    if Encode(printable, plan).Success? { DecodeEncoded(printable, plan); }
  }

  /** The tag a"b is encoded, and comes back cut at the quote. */
  lemma {:induction false} QuotedTagChanges(printable: char -> bool, config: string)
    ensures var plan := FileScan(config, Some(Metadata("a\"b")));
      && Encode(printable, plan).Success?
      && Decode(Encode(printable, plan).value)
         == Success(FileScan(config, Some(Metadata(Escape(printable, "a") + "\\")))) != Success(plan)
  {
    var plan := FileScan(config, Some(Metadata("a\"b")));
    assert "a" + "\"" + "b" == "a\"b";
    QuotedTag(printable, "a", "b");
    DecodeEncoded(printable, plan);
    assert EscapeChar(printable, "a\"b"[1]) != ["a\"b"[1]];
    RoundTripIff(printable, plan);
  }

  /** A foreign adapter comes back as the metadata adapter of the tag in its Debug output, or is dropped
      when there is none. */
  lemma {:induction false} ForeignAdapter(printable: char -> bool, config: string, debug: string, tag: string)
    ensures var encoded := Encode(printable, FileScan(config, Some(Foreign(debug))));
      && encoded.Success?
      && (Decode(encoded.value) == Success(FileScan(config, Some(Metadata(tag))))
          <==> exists start: nat :: TagIn(debug, start, tag))
      && (Decode(encoded.value) == Success(FileScan(config, None))
          <==> forall start: nat, t :: !TagIn(debug, start, t))
  {
    var plan := FileScan(config, Some(Foreign(debug)));
    EncodesIff(printable, plan);
    DecodeEncoded(printable, plan);
    ExtractTagIff(debug, tag);
    if ExtractTag(debug).Some? {
      ExtractTagIff(debug, ExtractTag(debug).value);
    } else {
      forall start: nat, t ensures !TagIn(debug, start, t) { ExtractTagIff(debug, t); }
    }
  }

  // ----- the two decoding routes -----

  /** Every marked extension has exactly one input. */
  ghost predicate OneInput(p: Proto) {
    match p
    case ScanProto(_) => true
    case InnerProto(_, inputs) => forall i :: 0 <= i < |inputs| ==> OneInput(inputs[i])
    case Extension(_, inputs) =>
      (IsMarked(p) ==> |inputs| == 1) && forall i :: 0 <= i < |inputs| ==> OneInput(inputs[i])
  }

  /** On such messages intercepting and going through try_decode give the same plan. */
  lemma {:induction false} RoutesAgree(p: Proto)
    requires OneInput(p)
    ensures Decode(p) == DecodeDefault(p)
  {
    if IsMarked(p) {
      RoutesAgree(p.inputs[0]);
      assert p.inputs[1..] == [];
      assert DecodeAll(p.inputs[1..]) == Success([]);
    }
  }

  lemma {:induction false} FirstDecodes(ps: seq<Proto>)
    requires ps != [] && DecodeAll(ps).Success?
    ensures Decode(ps[0]).Success? && |DecodeAll(ps).value| == |ps|
  {
    DecodedLength(ps);
  }

  lemma {:induction false} DecodedLength(ps: seq<Proto>)
    requires DecodeAll(ps).Success?
    ensures |DecodeAll(ps).value| == |ps|
  {
    if ps == [] {
    } else {
      DecodedLength(ps[1..]);
    }
  }

  /** On a marked extension whose inputs decode, the routes agree only if there is exactly one input:
      without inputs they report different errors, with several only one of them reports any. */
  lemma {:induction false} RoutesAgreeIff(p: Proto)
    requires IsMarked(p) && DecodeAll(p.inputs).Success? && forall i :: 0 <= i < |p.inputs| ==> OneInput(p.inputs[i])
    ensures Decode(p) == DecodeDefault(p) <==> |p.inputs| == 1
    ensures p.inputs == [] ==> Decode(p) == Failure(MissingChild)
    ensures |p.inputs| != 1 ==> DecodeDefault(p) == Failure(WrongChildCount)
    ensures |p.inputs| > 1 ==> Decode(p).Success?
  {
    DecodedLength(p.inputs);
    if p.inputs != [] {
      FirstDecodes(p.inputs);
      RoutesAgree(p.inputs[0]);
    }
    if |p.inputs| == 1 { RoutesAgree(p); }
  }
}
