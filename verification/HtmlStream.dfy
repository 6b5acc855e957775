/** What all calls of Next together make of an input. */
module HtmlStream {
  import opened Utf8
  import Escape = HtmlEscape
  import opened HtmlEntity
  import opened HtmlTokens

  /** The tokenizer's states after each call of Next, up to and including the first error token. */
  function Tokens(s: Bytes, st: State): (r: seq<State>)
    requires Inside(s, st.look)
    ensures r != [] && r[|r| - 1].tt == ErrorToken
    ensures forall k :: 0 <= k < |r| - 1 ==> r[k].tt != ErrorToken
    decreases |s| - st.look.end
  {
    hide Next;
    var t := Next(s, st);
    if t.tt == ErrorToken then [t] else [t] + Tokens(s, t)
  }

  /** The bytes of one token, as Raw returns them. */
  function Raw(s: Bytes, st: State): Bytes
    requires Inside(s, st.look)
  {
    s[st.look.start..st.look.end]
  }

  ghost predicate AllInside(s: Bytes, ts: seq<State>) {
    forall k :: 0 <= k < |ts| ==> Inside(s, ts[k].look)
  }

  /** The bytes of all tokens, one after another. */
  function Raws(s: Bytes, ts: seq<State>): Bytes
    requires AllInside(s, ts)
  {
    if ts == [] then [] else Raw(s, ts[0]) + Raws(s, ts[1..])
  }

  lemma NoRaws(s: Bytes)
    ensures Raws(s, []) == []
  {
  }

  lemma RawsStep(s: Bytes, t: State, rest: seq<State>)
    requires Inside(s, t.look) && AllInside(s, rest)
    ensures AllInside(s, [t] + rest) && Raws(s, [t] + rest) == Raw(s, t) + Raws(s, rest)
  {
    assert ([t] + rest)[1..] == rest;
  }

  /** No byte of the input is lost, repeated or moved. */
  lemma {:induction false} RawsAreTheInput(s: Bytes, st: State)
    requires Inside(s, st.look)
    ensures AllInside(s, Tokens(s, st)) && Raws(s, Tokens(s, st)) == s[st.look.end..]
    decreases |s| - st.look.end
  {
    hide Next, Raws;
    var t := Next(s, st);
    assert s[st.look.end..] == Raw(s, t) + s[t.look.end..];
    if t.tt == ErrorToken {
      NoRaws(s);
      assert [t] + [] == [t];
      RawsStep(s, t, []);
    } else {
      RawsAreTheInput(s, t);
      RawsStep(s, t, Tokens(s, t));
    }
  }

  /** A call of Next that is not the last one makes progress, so there are no more tokens than bytes. */
  lemma {:induction false} TokensAreFew(s: Bytes, st: State)
    requires Inside(s, st.look)
    ensures |Tokens(s, st)| <= |s| - st.look.end + 1
    decreases |s| - st.look.end
  {
    hide Next;
    var t := Next(s, st);
    if t.tt == ErrorToken {
      assert Tokens(s, st) == [t];
    } else {
      TokensAreFew(s, t);
    }
  }

  /** Token k starts where token k - 1 ended, its data lies in it, and the attributes of a start tag do. */
  lemma {:induction false} TokensAreAdjacent(s: Bytes, st: State, k: nat)
    requires Inside(s, st.look) && k < |Tokens(s, st)|
    ensures var t, before := Tokens(s, st)[k], if k == 0 then st else Tokens(s, st)[k - 1];
      && Inside(s, before.look) && t == Next(s, before) && t.look.start == before.look.end && WellFormed(t)
      && (t.tt != ErrorToken ==> t.look.start < t.look.end)
    decreases k
  {
    hide Next;
    var t := Next(s, st);
    if k > 0 {
      TokensAreAdjacent(s, t, k - 1);
      assert Tokens(s, st) == [t] + Tokens(s, t);
    }
  }

  // ----- what a token says -----

  datatype Attr = Attr(key: Bytes, val: Bytes)

  datatype Token = Token(tt: TokenType, data: Bytes, attr: seq<Attr>)

  const REPLACEMENT: Bytes := [0xEF, 0xBF, 0xBD]

  /** bytes.Replace(s, "\x00", "\ufffd", -1) */
  function WithoutNuls(s: Bytes): Bytes {
    if s == [] then [] else (if s[0] == 0 then REPLACEMENT else [s[0]]) + WithoutNuls(s[1..])
  }

  lemma {:induction false} NoNuls(s: Bytes)
    ensures 0 !in s ==> WithoutNuls(s) == s
  {
    if s != [] {
      NoNuls(s[1..]);
    }
  }

  lemma {:induction false} NulsReplaced(s: Bytes)
    ensures 0 !in WithoutNuls(s)
  {
    if s != [] {
      NulsReplaced(s[1..]);
    }
  }

  method ReplaceNuls(s: Bytes) returns (r: Bytes)
    ensures r == WithoutNuls(s)
  {
    r := [];
    var i := 0;
    while i < |s|
      invariant 0 <= i <= |s| && r + WithoutNuls(s[i..]) == WithoutNuls(s)
    {
      assert s[i..][1..] == s[i + 1..];
      var part := if s[i] == 0 then REPLACEMENT else [s[i]];
      assert r + (part + WithoutNuls(s[i + 1..])) == (r + part) + WithoutNuls(s[i + 1..]);
      r := r + part;
      i := i + 1;
    }
  }

  predicate IsText(tt: TokenType) {
    tt == TextToken || tt == CommentToken || tt == DoctypeToken
  }

  function Part(s: Bytes, x: Span): Bytes
    requires 0 <= x.start <= x.end <= |s|
  {
    s[x.start..x.end]
  }

  /** The text of a text, comment or doctype token. */
  ghost function Content(t: Entities, s: Bytes, st: State): Bytes
    requires Compact(t) && Inside(s, st.look) && DataInside(st.look)
  {
    var lines := Escape.Newlines(Part(s, st.look.data));
    var clean := if st.convertNUL || st.tt == CommentToken then WithoutNuls(lines) else lines;
    if st.textIsRaw then clean else Unescaped(t, clean, false)
  }

  ghost function AttrOf(t: Entities, s: Bytes, a: (Span, Span)): Attr
    requires Compact(t) && 0 <= a.0.start <= a.0.end <= |s| && 0 <= a.1.start <= a.1.end <= |s|
  {
    Attr(LowerAll(Part(s, a.0)), Unescaped(t, Escape.Newlines(Part(s, a.1)), true))
  }

  /** The attributes from number k on. */
  ghost function AttrsFrom(t: Entities, s: Bytes, l: Look, k: nat): seq<Attr>
    requires Compact(t) && Inside(s, l) && DataInside(l) && SpansInside(l) && k <= |l.attrs|
    decreases |l.attrs| - k
  {
    if k == |l.attrs| then []
    else
      assert PairInside(l.attrs[k], l.data.end, l.end);
      [AttrOf(t, s, l.attrs[k])] + AttrsFrom(t, s, l, k + 1)
  }

  /** The token that Token returns. */
  ghost function Meaning(t: Entities, s: Bytes, st: State): Token
    requires Compact(t) && Inside(s, st.look) && WellFormed(st)
  {
    if IsText(st.tt) then Token(st.tt, Content(t, s, st), [])
    else if st.tt == ErrorToken then Token(st.tt, [], [])
    else Token(st.tt, LowerAll(Part(s, st.look.data)),
               if st.tt == EndTagToken then [] else AttrsFrom(t, s, st.look, 0))
  }

  /** The tokens of a whole input. */
  ghost function Stream(t: Entities, s: Bytes, st: State): seq<Token>
    requires Compact(t) && Inside(s, st.look)
    decreases |s| - st.look.end
  {
    hide Next;
    var n := Next(s, st);
    if n.tt == ErrorToken then [Meaning(t, s, n)] else [Meaning(t, s, n)] + Stream(t, s, n)
  }

  /** What Next does not look at: where the current token's data was, and which attributes have been returned. */
  function Forget(st: State): State {
    st.(look := st.look.(start := st.look.end, data := Span(st.look.end, st.look.end)), used := 0)
  }

  lemma StartTagForgets(s: Bytes, a: State, b: State)
    requires Inside(s, a.look) && a.look.start + 2 <= a.look.end && !a.look.err && a == b.(used := a.used)
    ensures StartTag(s, a) == StartTag(s, b)
  {
    hide Tag, RAW_TAGS, WellFormed;
  }

  lemma EndTagForgets(s: Bytes, a: State, b: State)
    requires Inside(s, a.look) && a.look.start + 2 <= a.look.end && !a.look.err && a == b.(used := a.used)
    requires a.look.data == Span(a.look.start, a.look.start)
    ensures EndTag(s, a).(used := 0) == EndTag(s, b).(used := 0)
  {
    hide Tag, UntilAngle, WellFormed;
  }

  lemma OpenedForgets(s: Bytes, a: State, b: State)
    requires Inside(s, a.look) && !a.look.err && a.look.data == Span(a.look.start, a.look.start)
    requires a.look.start + 2 == a.look.end && Opens(s[a.look.end - 1]) && a == b.(used := a.used)
    ensures Opened(s, a).(used := 0) == Opened(s, b).(used := 0)
  {
    hide Opens, StartTag, EndTag, Markup, UntilAngle, WellFormed, IsLetter;
    var c := s[a.look.end - 1];
    if IsLetter(c) {
      StartTagForgets(s, a, b);
    } else if c == SLASH {
      EndTagForgets(s, a, b);
    }
  }

  lemma PlainForgets(s: Bytes, a: State, b: State)
    requires Inside(s, a.look) && a.look.start == a.look.end && a.look.data == Span(a.look.end, a.look.end)
    requires a == b.(used := a.used)
    ensures Plain(s, a).(used := 0) == Plain(s, b).(used := 0)
  {
    hide TokenStart, Opens, Opened, WellFormed;
    var x := TokenStart(s, a.look.end);
    if x < |s| && a.look.start == x {
      var l := a.look.(end := x + 2);
      OpenedForgets(s, a.(look := l), b.(look := l));
    }
  }

  /** Reading a token's text or attributes does not change what comes next. */
  lemma NextForgets(s: Bytes, a: State, b: State)
    requires Inside(s, a.look) && Inside(s, b.look) && Forget(a) == Forget(b)
    ensures Next(s, a).(used := 0) == Next(s, b).(used := 0)
  {
    hide Plain, Script, RawText;
    var p := a.look.end;
    var a0 := a.(look := a.look.(start := p, data := Span(p, p)));
    var b0 := b.(look := b.look.(start := p, data := Span(p, p)));
    if !a.look.err {
      var a1 := if a.rawTag == [] then a0 else RawPart(s, a0);
      var b1 := if b.rawTag == [] then b0 else RawPart(s, b0);
      if a1.look.data.end <= a1.look.data.start {
        PlainForgets(s, a1.(textIsRaw := false, convertNUL := false), b1.(textIsRaw := false, convertNUL := false));
      }
    }
  }

  lemma {:induction false} SameStream(t: Entities, s: Bytes, a: State, b: State)
    requires Compact(t) && Inside(s, a.look) && Inside(s, b.look) && Forget(a) == Forget(b)
    ensures Stream(t, s, a) == Stream(t, s, b)
    decreases |s| - a.look.end
  {
    hide Next, Compact, Content, AttrsFrom;
    NextForgets(s, a, b);
    var c, d := Next(s, a), Next(s, b);
    assert Meaning(t, s, c) == Meaning(t, s, d) by {
      assert c == d.(used := c.used);
      SameContent(t, s, c, d);
    }
    if c.tt != ErrorToken {
      SameStream(t, s, c, d);
    }
  }

  lemma SameContent(t: Entities, s: Bytes, c: State, d: State)
    requires Compact(t) && Inside(s, c.look) && WellFormed(c) && WellFormed(d) && c == d.(used := c.used)
    ensures Content(t, s, c) == Content(t, s, d)
  {
  }
}
