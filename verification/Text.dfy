/** Trimming as Rust's str does it: White_Space of the Unicode standard. */
module Text {

  predicate IsWhitespace(c: char) {
    || '\t' <= c <= '\r' || c == ' ' || c == '\U{85}' || c == '\U{A0}' || c == '\U{1680}'
    || '\U{2000}' <= c <= '\U{200A}' || c == '\U{2028}' || c == '\U{2029}' || c == '\U{202F}'
    || c == '\U{205F}' || c == '\U{3000}'
  }

  /** The code points with property White_Space. */
  lemma {:induction false} WhitespaceIff(c: char)
    ensures IsWhitespace(c) <==> c as int in {
      0x9, 0xA, 0xB, 0xC, 0xD, 0x20, 0x85, 0xA0, 0x1680, 0x2000, 0x2001, 0x2002, 0x2003, 0x2004, 0x2005, 0x2006,
      0x2007, 0x2008, 0x2009, 0x200A, 0x2028, 0x2029, 0x202F, 0x205F, 0x3000}
  {
  }

  predicate Blank(s: string) {
    forall i :: 0 <= i < |s| ==> IsWhitespace(s[i])
  }

  function TrimStart(s: string): string {
    if s != [] && IsWhitespace(s[0]) then TrimStart(s[1..]) else s
  }

  function TrimEnd(s: string): (t: string)
    ensures t <= s && Blank(s[|t|..])
    ensures t == [] || !IsWhitespace(t[|t| - 1])
  {
    if s != [] && IsWhitespace(s[|s| - 1]) then TrimEnd(s[..|s| - 1]) else s
  }

  function Trim(s: string): string {
    TrimEnd(TrimStart(s))
  }

  /** Trimming splits off a blank prefix and a blank suffix. */
  lemma {:induction false} TrimStartSplits(s: string) returns (w: string)
    ensures s == w + TrimStart(s) && Blank(w)
    ensures TrimStart(s) == [] || !IsWhitespace(TrimStart(s)[0])
  {
    if s != [] && IsWhitespace(s[0]) {
      w := TrimStartSplits(s[1..]);
      w := [s[0]] + w;
    } else {
      w := [];
    }
  }

  lemma {:induction false} TrimSplits(s: string) returns (w: string, v: string)
    ensures s == w + Trim(s) + v && Blank(w) && Blank(v)
  {
    w := TrimStartSplits(s);
    v := TrimStart(s)[|Trim(s)|..];
  }

  /** A text that neither starts nor ends with white space, between blanks, is what trimming yields. */
  lemma {:induction false} TrimUnique(w: string, t: string, v: string)
    requires Blank(w) && Blank(v) && (t != [] ==> !IsWhitespace(t[0]) && !IsWhitespace(t[|t| - 1]))
    ensures Trim(w + t + v) == t
    decreases |w| + |v|
  {
    var s := w + t + v;
    if w != [] {
      assert s[1..] == w[1..] + t + v;
      TrimUnique(w[1..], t, v);
    } else if t != [] {
      assert TrimStart(s) == s == t + v;
      TrimEndUnique(t, v);
    } else if v != [] {
      assert s[1..] == w + t + v[1..];
      TrimUnique(w, t, v[1..]);
    }
  }

  lemma {:induction false} TrimEndUnique(t: string, v: string)
    requires Blank(v) && (t == [] || !IsWhitespace(t[|t| - 1]))
    ensures TrimEnd(t + v) == t
  {
    if v != [] {
      var s := t + v;
      assert s[..|s| - 1] == t + v[..|v| - 1];
      TrimEndUnique(t, v[..|v| - 1]);
    } else {
      assert t + v == t;
    }
  }

  lemma {:induction false} TrimEdges(s: string)
    ensures Trim(s) != [] ==> !IsWhitespace(Trim(s)[0]) && !IsWhitespace(Trim(s)[|Trim(s)| - 1])
  {
    var w := TrimStartSplits(s);
    assert Trim(s) <= TrimStart(s);
    assert Trim(s) != [] ==> Trim(s)[0] == TrimStart(s)[0];
  }

  lemma {:induction false} TrimBlankIff(s: string)
    ensures Trim(s) == [] <==> Blank(s)
  {
    var w, v := TrimSplits(s);
    TrimEdges(s);
    if Trim(s) == [] { assert s == w + v; } else { assert s[|w|] == Trim(s)[0]; }
  }

  lemma {:induction false} TrimEnds(s: string)
    ensures Trim(s) != [] ==> !IsWhitespace(Trim(s)[0]) && !IsWhitespace(Trim(s)[|Trim(s)| - 1])
    ensures Trim(s) == [] <==> Blank(s)
    ensures Trim(Trim(s)) == Trim(s)
  {
    TrimEdges(s);
    TrimBlankIff(s);
    TrimUnique([], Trim(s), []);
    assert [] + Trim(s) + [] == Trim(s);
  }

  /** A blank prefix does not change the trimmed text. */
  lemma {:induction false} TrimBlankPrefix(w: string, s: string)
    requires Blank(w)
    ensures Trim(w + s) == Trim(s)
  {
    var a, b := TrimSplits(s);
    TrimEnds(s);
    TrimUnique(w + a, Trim(s), b);
    assert w + s == (w + a) + Trim(s) + b;
  }

  lemma {:induction false} TrimBlankSuffix(s: string, w: string)
    requires Blank(w)
    ensures Trim(s + w) == Trim(s)
  {
    var u, v := TrimSplits(s);
    TrimEnds(s);
    TrimUnique(u, Trim(s), v + w);
    assert s + w == u + Trim(s) + (v + w);
  }

  lemma {:induction false} Inside(w: string, a: string, v: string, w': string, x: string, v': string)
    ensures (w + a + v) + (w' + x + v') == w + (a + (v + w') + x) + v'
  {
  }

  lemma {:induction false} TrimGrows(s: string, x: string)
    requires !Blank(s) && !Blank(x)
    ensures |Trim(s)| < |Trim(s + x)|
  {
    var w, v := TrimSplits(s);
    var w', v' := TrimSplits(x);
    TrimEnds(s);
    TrimEnds(x);
    Inside(w, Trim(s), v, w', Trim(x), v');
    TrimUnique(w, Trim(s) + (v + w') + Trim(x), v');
  }
}
