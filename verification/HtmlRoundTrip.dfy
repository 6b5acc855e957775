/** Token.String of html/token.go, and what the tokenizer reads back of it. */
module HtmlRoundTrip {
  import opened Utf8
  import Escape = HtmlEscape
  import opened HtmlEntity
  import opened HtmlTokens
  import opened HtmlStream
  import opened HtmlAttributes
  import opened HtmlMeaning

  const SPACE: Byte := 0x20

  // ----- writing -----

  /** An attribute: its key and, in quotes, its escaped value. */
  function AttrString(a: Attr): Bytes {
    a.key + [EQ, DOUBLE_QUOTE] + Escape.Escaped(a.val) + [DOUBLE_QUOTE]
  }

  function AttrsString(attrs: seq<Attr>): Bytes {
    if attrs == [] then [] else [SPACE] + AttrString(attrs[0]) + AttrsString(attrs[1..])
  }

  const COMMENT_OPEN: Bytes := [LT, BANG, DASH, DASH]
  const COMMENT_CLOSE: Bytes := [DASH, DASH, GT]
  const DOCTYPE_OPEN: Bytes := [LT, BANG, 0x44, 0x4F, 0x43, 0x54, 0x59, 0x50, 0x45, SPACE]

  /** String. */
  function Written(k: Token): Bytes {
    match k.tt
    case ErrorToken => []
    case TextToken => Escape.Escaped(k.data)
    case StartTagToken => [LT] + k.data + AttrsString(k.attr) + [GT]
    case EndTagToken => [LT, SLASH] + k.data + AttrsString(k.attr) + [GT]
    case SelfClosingTagToken => [LT] + k.data + AttrsString(k.attr) + [SLASH, GT]
    case CommentToken => COMMENT_OPEN + k.data + COMMENT_CLOSE
    case DoctypeToken => DOCTYPE_OPEN + k.data + [GT]
  }

  lemma {:induction false} AttrsStringConcat(a: seq<Attr>, b: seq<Attr>)
    ensures AttrsString(a + b) == AttrsString(a) + AttrsString(b)
  {
    hide AttrString;
    if a == [] {
      assert a + b == b;
    } else {
      AttrsStringConcat(a[1..], b);
      assert (a + b)[1..] == a[1..] + b;
    }
  }

  method TagString(k: Token) returns (buf: Bytes)
    ensures buf == k.data + AttrsString(k.attr)
  {
    hide AttrsString;
    NoAttrsString();
    if |k.attr| == 0 {
      return k.data;
    }
    buf := k.data;
    for i := 0 to |k.attr|
      invariant buf == k.data + AttrsString(k.attr[..i])
    {
      var a := k.attr[i];
      buf := buf + [SPACE];
      buf := buf + a.key;
      buf := buf + [EQ, DOUBLE_QUOTE];
      var val := Escape.Escape(a.val);
      buf := buf + val;
      buf := buf + [DOUBLE_QUOTE];
      OneAttrString(a);
      AttrsStringConcat(k.attr[..i], [a]);
      assert k.attr[..i + 1] == k.attr[..i] + [a];
    }
    assert k.attr[..|k.attr|] == k.attr;
  }

  lemma NoAttrsString()
    ensures AttrsString([]) == []
  {
  }

  lemma OneAttrString(a: Attr)
    ensures AttrsString([a])
         == [SPACE] + (a.key + ([EQ, DOUBLE_QUOTE] + (Escape.Escaped(a.val) + [DOUBLE_QUOTE])))
  {
    assert [a][1..] == [];
  }

  method String(k: Token) returns (r: Bytes)
    ensures r == Written(k)
  {
    hide AttrsString;
    match k.tt
    case ErrorToken => r := [];
    case TextToken => r := Escape.EscapeString(k.data);
    case StartTagToken =>
      var tag := TagString(k);
      r := [LT] + tag + [GT];
    case EndTagToken =>
      var tag := TagString(k);
      r := [LT, SLASH] + tag + [GT];
    case SelfClosingTagToken =>
      var tag := TagString(k);
      r := [LT] + tag + [SLASH, GT];
    case CommentToken => r := COMMENT_OPEN + k.data + COMMENT_CLOSE;
    case DoctypeToken => r := DOCTYPE_OPEN + k.data + [GT];
  }

  // ----- tags -----

  ghost predicate KeysFit(attrs: seq<Attr>) {
    forall k :: 0 <= k < |attrs| ==> KeyFits(attrs[k].key)
  }

  function LowerAttrs(attrs: seq<Attr>): (r: seq<Attr>)
    ensures |r| == |attrs| && forall k :: 0 <= k < |r| ==> r[k] == attrs[k].(key := LowerAll(attrs[k].key))
  {
    seq(|attrs|, k requires 0 <= k < |attrs| => attrs[k].(key := LowerAll(attrs[k].key)))
  }

  /** How String spells attributes. */
  function Spellings(attrs: seq<Attr>): (xs: seq<Spelling>)
    ensures |xs| == |attrs|
  {
    if attrs == [] then []
    else
      var value := Quoted(DOUBLE_QUOTE, Escape.Escaped(attrs[0].val));
      [Spelling(attrs[0].key, [], [], value, Gap(attrs[1..]))] + Spellings(attrs[1..])
  }

  function Gap(attrs: seq<Attr>): Bytes {
    if attrs == [] then [] else [SPACE]
  }

  /** The end of a tag's string. */
  function Close(tt: TokenType): Bytes {
    if tt == SelfClosingTagToken then [SLASH, GT] else [GT]
  }

  function TagOf(k: Token): Spelled {
    Spelled(k.data, Gap(k.attr), Spellings(k.attr), Close(k.tt))
  }

  lemma FirstSpelled(a: Attr, rest: Bytes)
    ensures var x := Spelling(a.key, [], [], Quoted(DOUBLE_QUOTE, Escape.Escaped(a.val)), rest);
      Spell(x) == AttrString(a) + rest
  {
    hide Escape.Escaped;
    var e := Escape.Escaped(a.val);
    assert [] + [EQ] + [] + ([DOUBLE_QUOTE] + e + [DOUBLE_QUOTE]) == [EQ, DOUBLE_QUOTE] + e + [DOUBLE_QUOTE];
    assert a.key + ([EQ, DOUBLE_QUOTE] + e + [DOUBLE_QUOTE]) == AttrString(a);
  }

  lemma {:induction false} AttrsSpelled(attrs: seq<Attr>)
    ensures AttrsString(attrs) == Gap(attrs) + SpellAll(Spellings(attrs))
  {
    hide AttrString, Spell, Escape.Escaped;
    if attrs != [] {
      var rest := attrs[1..];
      AttrsSpelled(rest);
      FirstSpelled(attrs[0], Gap(rest));
      assert Spellings(attrs)[1..] == Spellings(rest);
      assert AttrString(attrs[0]) + (Gap(rest) + SpellAll(Spellings(rest)))
          == AttrString(attrs[0]) + Gap(rest) + SpellAll(Spellings(rest));
    }
  }

  /** What String writes of a tag is a tag. */
  lemma TagWritten(k: Token)
    requires k.tt in {StartTagToken, SelfClosingTagToken, EndTagToken}
    ensures Written(k) == (if k.tt == EndTagToken then [LT, SLASH] else [LT]) + SpellTag(TagOf(k))
  {
    hide AttrsString, Spellings, SpellAll;
    AttrsSpelled(k.attr);
    assert k.data + Gap(k.attr) + (SpellAll(Spellings(k.attr)) + Close(k.tt))
        == k.data + (Gap(k.attr) + SpellAll(Spellings(k.attr))) + Close(k.tt);
  }

  lemma {:induction false} EscapedClean(s: Bytes, c: Byte)
    requires c == LT || c == DOUBLE_QUOTE || c == GT
    ensures c !in Escape.Escaped(s)
  {
    if s != [] {
      EscapedClean(s[1..], c);
    }
  }

  lemma {:induction false} SpelledAt(attrs: seq<Attr>, k: nat)
    requires k < |attrs|
    ensures Spellings(attrs)[k] == Spelling(attrs[k].key, [], [], Quoted(DOUBLE_QUOTE, Escape.Escaped(attrs[k].val)),
                                            Gap(attrs[k + 1..]))
    ensures Spellings(attrs)[k + 1..] == Spellings(attrs[k + 1..])
    decreases k
  {
    hide Escape.Escaped, Gap;
    if k > 0 {
      SpelledAt(attrs[1..], k - 1);
      assert attrs[1..][k..] == attrs[k + 1..];
      assert Spellings(attrs)[k + 1..] == Spellings(attrs)[1..][k..];
    }
  }

  lemma SpelledApart(rest: seq<Attr>, close: Bytes, x: Spelling)
    requires KeysFit(rest) && IsClose(close) && x.value.Quoted?
    ensures Apart(x, SpellAll(Spellings(rest)) + close)
  {
    hide Escape.Escaped;
    if rest != [] {
      assert KeyFits(rest[0].key);
      assert (SpellAll(Spellings(rest)) + close)[0] == rest[0].key[0];
    }
  }

  lemma TagOfFits(k: Token)
    requires NameFits(k.data) && KeysFit(k.attr)
    ensures TagFits(TagOf(k))
  {
    hide Escape.Escaped, SpellAll, NameFits, Apart;
    var xs, close := Spellings(k.attr), Close(k.tt);
    forall i | 0 <= i < |xs| ensures SpellingFits(xs[i]) && Apart(xs[i], SpellAll(xs[i + 1..]) + close) {
      SpelledAt(k.attr, i);
      EscapedClean(k.attr[i].val, DOUBLE_QUOTE);
      assert KeyFits(k.attr[i].key);
      SpelledApart(k.attr[i + 1..], close, xs[i]);
    }
  }

  // ----- tokens -----

  /** What Token makes of attributes as they are spelled: keys in lower case, and values without references. */
  ghost function AttrsOf(t: Entities, xs: seq<Spelling>): (r: seq<Attr>)
    requires Compact(t)
    ensures |r| == |xs|
  {
    seq(|xs|, k requires 0 <= k < |xs| =>
      Attr(LowerAll(xs[k].key), Unescaped(t, Escape.Newlines(RawValue(xs[k].value)), true)))
  }

  lemma WrittenAttrs(t: Entities, attrs: seq<Attr>)
    requires Compact(t) && Escape.HasBasics(t)
    ensures AttrsOf(t, Spellings(attrs)) == LowerAttrs(attrs)
  {
    hide Compact, Escape.HasBasics, Escape.Escaped, Escape.Newlines, Unescaped, LowerAll;
    forall k | 0 <= k < |attrs| ensures AttrsOf(t, Spellings(attrs))[k] == LowerAttrs(attrs)[k] {
      SpelledAt(attrs, k);
      Escape.TokenRoundTrip(t, attrs[k].val, true);
    }
  }

  lemma {:induction false} AttrsFromIs(t: Entities, s: Bytes, l: Look, xs: seq<Spelling>, k: nat)
    requires Compact(t) && Inside(s, l) && DataInside(l) && SpansInside(l) && AllMarked(s, l.attrs, xs)
    requires k <= |xs|
    ensures AttrsFrom(t, s, l, k) == AttrsOf(t, xs)[k..]
    decreases |xs| - k
  {
    hide Escape.Newlines, Unescaped, LowerAll, Compact;
    if k < |xs| {
      AttrsFromIs(t, s, l, xs, k + 1);
      assert Marks(s, l.attrs[k].0, l.attrs[k].1, xs[k]);
      assert AttrsOf(t, xs)[k..] == [AttrsOf(t, xs)[k]] + AttrsOf(t, xs)[k + 1..];
    }
  }

  /** Where a tag, comment or declaration opens, it is read. */
  lemma NextOpens(s: Bytes, st: State)
    requires Inside(s, st.look) && !st.look.err && st.rawTag == [] && OpensAt(s, st.look.end)
    ensures var p := st.look.end;
      Next(s, st) == Opened(s, st.(look := st.look.(start := p, end := p + 2, data := Span(p, p)),
                                   textIsRaw := false, convertNUL := false))
  {
    hide Opened;
  }

  /** Whether raw text is due behind a start tag. */
  function RawName(name: Bytes): Bytes {
    if LowerAll(name) in RAW_TAGS then LowerAll(name) else []
  }

  /** A token once it has been written and read: names and keys are in lower case, an end tag has no attributes, and
      comments and doctypes, which are not escaped, are decoded all the same. */
  ghost function Reread(t: Entities, k: Token): Token
    requires Compact(t)
  {
    match k.tt
    case StartTagToken | SelfClosingTagToken => Token(k.tt, LowerAll(k.data), LowerAttrs(k.attr))
    case EndTagToken => Token(k.tt, LowerAll(k.data), [])
    case CommentToken => Token(k.tt, Unescaped(t, WithoutNuls(Escape.Newlines(k.data)), false), [])
    case DoctypeToken => Token(k.tt, Unescaped(t, Escape.Newlines(k.data), false), [])
    case _ => Token(k.tt, k.data, [])
  }

  /** A comment or a doctype comes back as it was if it has no "&", no carriage return and, in a comment, no NUL. */
  lemma RereadSame(t: Entities, k: Token)
    requires Compact(t) && k.tt in {CommentToken, DoctypeToken} && k.attr == []
    requires AMPERSAND !in k.data && Escape.RETURN !in k.data && (k.tt == CommentToken ==> 0 !in k.data)
    ensures Reread(t, k) == k
  {
    hide Compact, Unescaped, WithoutNuls, Escape.Newlines;
    Escape.NewlinesPlain(k.data);
    NoNuls(k.data);
    Escape.UnescapedWithoutEntities(t, k.data);
  }

  /** The tokenizer stands at p, where no raw text is due. */
  ghost predicate ReadyAt(s: Bytes, st: State, p: nat) {
    Inside(s, st.look) && st.look.end == p && st.rawTag == []
  }

  /** StartTag on a tag that has been read. */
  lemma StartTagOf(s: Bytes, st: State, r: Look)
    requires Inside(s, st.look) && st.look.start + 2 <= st.look.end && !st.look.err
    requires r == Tag(s, st.look, true) && !r.err && st.rawTag == [] && r.end >= 2
    ensures 0 <= r.data.start <= r.data.end <= |s|
    ensures StartTag(s, st)
         == st.(look := r, used := 0, tt := if s[r.end - 2] == SLASH then SelfClosingTagToken else StartTagToken,
                rawTag := RawName(s[r.data.start..r.data.end]))
  {
    hide Tag, RAW_TAGS, LowerAll;
  }

  lemma TagOpens(s: Bytes, p: nat, g: Spelled)
    requires TagFits(g) && At(s, p, [LT] + SpellTag(g))
    ensures At(s, p + 1, SpellTag(g)) && OpensAt(s, p) && IsLetter(s[p + 1])
    ensures var w := SpellTag(g); |w| >= 2 && p + 1 + |w| <= |s| && s[p - 1 + |w|] == w[|w| - 2]
  {
    hide At, SpellingsFit, IsLetter, NAME_STOPS, AllSpaces, SpellAll;
    var w := SpellTag(g);
    AtSplit(s, p, [LT], w);
    AtByte(s, p, [LT], 0);
    AtByte(s, p + 1, w, 0);
    AtInside(s, p + 1, w);
    AtByte(s, p + 1, w, |w| - 2);
  }

  /**
   * A start tag, however it is spelled: its name and its keys are what stands up to the next white space, "/", "=" or
   * ">", its values what stands between quotes or up to the next white space or ">", and it closes itself if there is a
   * "/" in front of its ">".
   */
  lemma SpelledBack(t: Entities, s: Bytes, st: State, p: nat, g: Spelled)
    requires Compact(t) && ReadyAt(s, st, p) && TagFits(g) && At(s, p, [LT] + SpellTag(g))
    ensures var n, w := Next(s, st), SpellTag(g);
      && |w| >= 2 && n.tt == (if w[|w| - 2] == SLASH then SelfClosingTagToken else StartTagToken)
      && n.look.end == p + 1 + |w| && !n.look.err && n.rawTag == RawName(g.name)
      && Meaning(t, s, n) == Token(n.tt, LowerAll(g.name), AttrsOf(t, g.attrs))
  {
    hide At, Compact, TagFits, AllMarked, Tag, StartTag, Next, Opens, IsLetter, LowerAll, AttrsOf, RawName, SpansInside,
         AttrsFrom, EndTag, Bogus, Declared, SpellTag;
    TagOpens(s, p, g);
    NextOpens(s, st);
    var l := st.look.(start := p, end := p + 2, data := Span(p, p));
    var spans := TagRead(s, l, g, true);
    StartTagOf(s, st.(look := l, textIsRaw := false, convertNUL := false), Tag(s, l, true));
    AttrsFromIs(t, s, Next(s, st).look, g.attrs, 0);
  }

  /** A name has no "/", and an attribute that String writes ends in a quote. */
  lemma {:induction false} LastByte(attrs: seq<Attr>)
    requires attrs != []
    ensures SpellAll(Spellings(attrs)) != []
         && SpellAll(Spellings(attrs))[|SpellAll(Spellings(attrs))| - 1] == DOUBLE_QUOTE
  {
    hide Escape.Escaped;
    if |attrs| > 1 {
      LastByte(attrs[1..]);
    }
  }

  lemma SlashBeforeEnd(k: Token)
    requires NameFits(k.data)
    ensures var w := SpellTag(TagOf(k)); |w| >= 2 && (w[|w| - 2] == SLASH <==> k.tt == SelfClosingTagToken)
  {
    hide Spellings, SpellAll;
    var w, rest := SpellTag(TagOf(k)), SpellAll(Spellings(k.attr));
    if k.tt == SelfClosingTagToken {
      assert w[|w| - 2] == Close(k.tt)[0];
    } else if k.attr == [] {
      NoSpellings();
      assert w[|w| - 2] == k.data[|k.data| - 1];
    } else {
      LastByte(k.attr);
      assert w[|w| - 2] == rest[|rest| - 1];
    }
  }

  lemma NoSpellings()
    ensures SpellAll(Spellings([])) == []
  {
  }

  lemma StartTagBack(t: Entities, s: Bytes, st: State, p: nat, k: Token)
    requires Compact(t) && Escape.HasBasics(t) && ReadyAt(s, st, p) && At(s, p, Written(k))
    requires k.tt in {StartTagToken, SelfClosingTagToken} && NameFits(k.data) && KeysFit(k.attr)
    ensures var n := Next(s, st);
      && n.tt == k.tt && n.look.end == p + |Written(k)| && !n.look.err && n.rawTag == RawName(k.data)
      && Meaning(t, s, n) == Reread(t, k)
  {
    hide At, Compact, Escape.HasBasics, NameFits, KeysFit, TagFits, Next, Meaning, LowerAll, LowerAttrs, AttrsOf,
         RawName, Written, SpellTag, WellFormed, Spellings;
    TagWritten(k);
    TagOfFits(k);
    SlashBeforeEnd(k);
    WrittenAttrs(t, k.attr);
    SpelledBack(t, s, st, p, TagOf(k));
  }

  lemma EndTagOpens(s: Bytes, p: nat, g: Spelled)
    requires TagFits(g) && At(s, p, [LT, SLASH] + SpellTag(g))
    ensures At(s, p + 2, SpellTag(g)) && OpensAt(s, p) && s[p + 1] == SLASH
    ensures p + 2 < |s| && IsLetter(s[p + 2]) && s[p + 2] != GT
  {
    hide At, SpellingsFit, NAME_STOPS, AllSpaces, SpellAll;
    var w := SpellTag(g);
    AtSplit(s, p, [LT, SLASH], w);
    AtByte(s, p, [LT, SLASH], 0);
    AtByte(s, p, [LT, SLASH], 1);
    AtByte(s, p + 2, w, 0);
  }

  lemma EndTagBack(t: Entities, s: Bytes, st: State, p: nat, k: Token)
    requires Compact(t) && ReadyAt(s, st, p) && At(s, p, Written(k))
    requires k.tt == EndTagToken && NameFits(k.data) && KeysFit(k.attr)
    ensures var n := Next(s, st);
      && n.tt == k.tt && n.look.end == p + |Written(k)| && !n.look.err && n.rawTag == []
      && Meaning(t, s, n) == Reread(t, k)
  {
    hide At, Compact, NameFits, KeysFit, TagFits, AllMarked, Tag, StartTag, Next, Opens, IsLetter, LowerAll, LowerAttrs,
         Written, SpansInside, AttrsFrom, Bogus, Declared, SpellTag, Spellings;
    TagWritten(k);
    TagOfFits(k);
    EndTagOpens(s, p, TagOf(k));
    NextOpens(s, st);
    LetterIsNoSlash(s[p + 1]);
    var l := st.look.(start := p, end := p + 3, data := Span(p, p));
    var spans := TagRead(s, l, TagOf(k), false);
  }

  lemma LetterIsNoSlash(c: Byte)
    ensures c == SLASH || c == BANG ==> !IsLetter(c)
  {
  }

  // ----- text -----

  /** Escaped text stands up to the next tag, comment or declaration, or up to the end of the input. */
  lemma TextStart(s: Bytes, p: nat, w: Bytes)
    requires At(s, p, w) && LT !in w && (p + |w| < |s| ==> OpensAt(s, p + |w|))
    ensures TokenStart(s, p) == p + |w|
  {
    var x := TokenStart(s, p);
    if x < p + |w| {
      AtByte(s, p, w, x - p);
    }
  }

  lemma TextBack(t: Entities, s: Bytes, st: State, p: nat, k: Token)
    requires Compact(t) && Escape.HasBasics(t) && ReadyAt(s, st, p) && At(s, p, Written(k))
    requires k.tt == TextToken && k.data != []
    requires p + |Written(k)| < |s| ==> OpensAt(s, p + |Written(k)|)
    ensures var n := Next(s, st);
      && n.tt == k.tt && ReadyAt(s, n, p + |Written(k)|) && Meaning(t, s, n) == Reread(t, k)
  {
    hide At, Compact, Escape.HasBasics, Escape.Escaped, Escape.Newlines, Unescaped, Opened, TokenStart, Opens,
         SpansInside;
    var w := Escape.Escaped(k.data);
    EscapedClean(k.data, LT);
    EscapedSome(k.data);
    AtInside(s, p, w);
    TextStart(s, p, w);
    PartAt(s, p, w);
    Escape.TokenRoundTrip(t, k.data, false);
  }

  lemma EscapedSome(s: Bytes)
    requires s != []
    ensures Escape.Escaped(s) != []
  {
  }

  // ----- comments -----

  /** The text of a comment is followed by the first place where the comment may end. */
  ghost predicate CommentFits(d: Bytes) {
    && (forall k :: 0 <= k < |d + COMMENT_CLOSE| ==> !Closes(d + COMMENT_CLOSE, 0, k))
    && Closes(d + COMMENT_CLOSE, 0, |d + COMMENT_CLOSE|)
  }

  /** Text without ">", not ending in "!", always fits. */
  lemma CommentsFit(d: Bytes)
    requires GT !in d && (d == [] || d[|d| - 1] != BANG)
    ensures CommentFits(d)
  {
    var w, n := d + COMMENT_CLOSE, |d|;
    assert Dashes(w, 0, n + 1) >= 1 && Dashes(w, 0, n + 2) >= 2;
  }

  lemma {:induction false} DashesAt(s: Bytes, p: nat, w: Bytes, k: nat)
    requires At(s, p, w) && k <= |w|
    ensures Dashes(s, p, p + k) == Dashes(w, 0, k)
    decreases k
  {
    hide At;
    AtInside(s, p, w);
    if k > 0 {
      AtByte(s, p, w, k - 1);
      DashesAt(s, p, w, k - 1);
      if k > 1 {
        AtByte(s, p, w, k - 2);
        DashesAt(s, p, w, k - 2);
      }
    }
  }

  lemma ClosesAt(s: Bytes, p: nat, w: Bytes, k: nat)
    requires At(s, p, w) && k <= |w|
    ensures Closes(s, p, p + k) <==> Closes(w, 0, k)
  {
    hide At, Dashes;
    AtInside(s, p, w);
    if k > 0 {
      AtByte(s, p, w, k - 1);
      DashesAt(s, p, w, k - 1);
      if k > 1 {
        AtByte(s, p, w, k - 2);
        DashesAt(s, p, w, k - 2);
      }
    }
  }

  lemma CommentBody(s: Bytes, p: nat, d: Bytes)
    requires At(s, p, d + COMMENT_CLOSE) && CommentFits(d)
    ensures CommentEnd(s, p, 2) == (p + |d|, p + |d| + 3, false)
  {
    hide At, Dashes, Closes, CommentEnd;
    var w := d + COMMENT_CLOSE;
    AtInside(s, p, w);
    CountedAtStart(s, p);
    CommentIsFirst(s, p, p, 2);
    var (x, e, err) := CommentEnd(s, p, 2);
    ClosesAt(s, p, w, |w|);
    if e < p + |w| {
      ClosesAt(s, p, w, e - p);
    }
    assert e == p + |w|;
    EndsInDashes(w);
    DashesAt(s, p, w, |w| - 1);
  }

  lemma CountedAtStart(s: Bytes, p: nat)
    requires p <= |s|
    ensures Counted(s, p, p, 2)
  {
  }

  lemma EndsInDashes(w: Bytes)
    requires |w| >= 3 && w[|w| - 2] == DASH && Closes(w, 0, |w|)
    ensures Dashes(w, 0, |w| - 1) >= 2
  {
  }

  /** Where "<!" stands, Next reads a declaration. */
  lemma NextDeclares(s: Bytes, st: State, p: nat)
    requires ReadyAt(s, st, p) && p + 1 < |s| && s[p] == LT && s[p + 1] == BANG
    ensures var l := st.look.(start := p, end := p + 2, data := Span(p, p));
      && Inside(s, l) && !l.err
      && Next(s, st) == st.(look := Markup(s, l, st.allowCDATA).1, tt := Markup(s, l, st.allowCDATA).0,
                            textIsRaw := false, convertNUL := Markup(s, l, st.allowCDATA).0 == TextToken)
  {
    hide Markup, StartTag, EndTag, Bogus, IsLetter, WellFormed;
    LetterIsNoSlash(BANG);
    NextOpens(s, st);
  }

  lemma DeclaredMeans(t: Entities, s: Bytes, n: State, k: Token)
    requires Compact(t) && Inside(s, n.look) && WellFormed(n) && n.tt == k.tt && k.tt in {CommentToken, DoctypeToken}
    requires !n.textIsRaw && !n.convertNUL && At(s, n.look.data.start, k.data)
    requires n.look.data == Span(n.look.data.start, n.look.data.start + |k.data|)
    ensures Meaning(t, s, n) == Reread(t, k)
  {
    hide At, Compact, Escape.Newlines, Unescaped, WithoutNuls, SpansInside;
    PartAt(s, n.look.data.start, k.data);
  }

  lemma CommentWritten(s: Bytes, p: nat, k: Token)
    requires k.tt == CommentToken && At(s, p, Written(k))
    ensures p + 4 <= |s| && s[p] == LT && s[p + 1] == BANG && s[p + 2] == DASH && s[p + 3] == DASH
    ensures At(s, p + 4, k.data + COMMENT_CLOSE) && |Written(k)| == |k.data| + 7
  {
    hide At;
    var w := k.data + COMMENT_CLOSE;
    assert Written(k) == COMMENT_OPEN + w;
    AtSplit(s, p, COMMENT_OPEN, w);
    AtInside(s, p, COMMENT_OPEN);
    AtByte(s, p, COMMENT_OPEN, 0);
    AtByte(s, p, COMMENT_OPEN, 1);
    AtByte(s, p, COMMENT_OPEN, 2);
    AtByte(s, p, COMMENT_OPEN, 3);
  }

  lemma CommentBack(t: Entities, s: Bytes, st: State, p: nat, k: Token)
    requires Compact(t) && ReadyAt(s, st, p) && At(s, p, Written(k))
    requires k.tt == CommentToken && CommentFits(k.data)
    ensures var n := Next(s, st);
      && n.tt == k.tt && n.look.end == p + |Written(k)| && !n.look.err && n.rawTag == []
      && Meaning(t, s, n) == Reread(t, k)
  {
    hide At, Compact, CommentFits, CommentEnd, Declaration, Next, Meaning, WellFormed, Written, Reread;
    CommentWritten(s, p, k);
    NextDeclares(s, st, p);
    CommentBody(s, p + 4, k.data);
    AtSplit(s, p + 4, k.data, COMMENT_CLOSE);
    DeclaredMeans(t, s, Next(s, st), k);
  }

  // ----- doctypes -----

  /** What stands behind the space of a doctype: no ">", and no more white space in front. */
  ghost predicate DoctypeFits(d: Bytes) {
    GT !in d && (d != [] ==> d[0] !in SPACES)
  }

  lemma MatchedWord(s: Bytes, p: nat, word: Bytes)
    requires p + |word| <= |s| && forall i :: 0 <= i < |word| ==> Lower(s[p + i]) == word[i]
    ensures Matched(s, p, word) == |word|
  {
  }

  lemma DoctypeWord(s: Bytes, p: nat)
    requires At(s, p, DOCTYPE_OPEN)
    ensures p + 10 <= |s| && s[p] == LT && s[p + 1] == BANG && s[p + 2] != DASH && s[p + 9] == SPACE
    ensures Matched(s, p + 2, DOCTYPE) == 7
  {
    hide At, Matched;
    AtInside(s, p, DOCTYPE_OPEN);
    AtByte(s, p, DOCTYPE_OPEN, 0);
    AtByte(s, p, DOCTYPE_OPEN, 1);
    AtByte(s, p, DOCTYPE_OPEN, 2);
    AtByte(s, p, DOCTYPE_OPEN, 9);
    forall i: nat | i < 7 ensures Lower(s[p + 2 + i]) == DOCTYPE[i] {
      AtByte(s, p, DOCTYPE_OPEN, 2 + i);
    }
    MatchedWord(s, p + 2, DOCTYPE);
  }

  lemma DoctypeData(s: Bytes, p: nat, d: Bytes)
    requires p < |s| && s[p] == SPACE && At(s, p + 1, d + [GT]) && DoctypeFits(d)
    ensures p + 1 + |d| < |s| && Skip(s, p) == p + 1 && Until(s, p + 1, {GT}) == p + 1 + |d|
  {
    hide At, Until;
    AtInside(s, p + 1, d + [GT]);
    AtByte(s, p + 1, d + [GT], 0);
    NoSpace(s, p + 1);
    AtByte(s, p + 1, d + [GT], |d|);
    AtSplit(s, p + 1, d, [GT]);
    UntilIs(s, p + 1, {GT}, d);
  }

  lemma DoctypeBack(t: Entities, s: Bytes, st: State, p: nat, k: Token)
    requires Compact(t) && ReadyAt(s, st, p) && At(s, p, Written(k))
    requires k.tt == DoctypeToken && DoctypeFits(k.data)
    ensures var n := Next(s, st);
      && n.tt == k.tt && n.look.end == p + |Written(k)| && !n.look.err && n.rawTag == []
      && Meaning(t, s, n) == Reread(t, k)
  {
    hide At, Compact, DoctypeFits, Comment, Matched, Until, Skip, CdataSection, Next, Meaning, WellFormed, Reread;
    var w := k.data + [GT];
    assert Written(k) == DOCTYPE_OPEN + w;
    AtSplit(s, p, DOCTYPE_OPEN, w);
    DoctypeWord(s, p);
    NextDeclares(s, st, p);
    DoctypeData(s, p + 9, k.data);
    AtSplit(s, p + 10, k.data, [GT]);
    DeclaredMeans(t, s, Next(s, st), k);
  }

  // ----- lists of tokens -----

  function WrittenAll(ks: seq<Token>): Bytes {
    if ks == [] then [] else Written(ks[0]) + WrittenAll(ks[1..])
  }

  /** A token that is written so that it can be read: any text; a tag with a name and keys, but none behind which raw
      text is due; and a comment or a doctype that does not end too early. */
  ghost predicate Writable(k: Token) {
    match k.tt
    case ErrorToken => false
    case TextToken => true
    case StartTagToken | SelfClosingTagToken => NameFits(k.data) && KeysFit(k.attr) && RawName(k.data) == []
    case EndTagToken => NameFits(k.data) && KeysFit(k.attr)
    case CommentToken => CommentFits(k.data)
    case DoctypeToken => DoctypeFits(k.data)
  }

  ghost predicate AllWritable(ks: seq<Token>) {
    forall k :: k in ks ==> Writable(k)
  }

  /** What is read of a list: texts next to each other are one, and an empty text is none. */
  ghost function Joined(t: Entities, ks: seq<Token>): seq<Token>
    requires Compact(t)
    decreases |ks|
  {
    if ks == [] then []
    else if ks[0].tt == TextToken && ks[0].data == [] then Joined(t, ks[1..])
    else if ks[0].tt == TextToken && |ks| > 1 && ks[1].tt == TextToken then
      Joined(t, [Token(TextToken, ks[0].data + ks[1].data, [])] + ks[2..])
    else [Reread(t, ks[0])] + Joined(t, ks[1..])
  }

  const END: Token := Token(ErrorToken, [], [])

  /** At the end of the input nothing is left. */
  lemma EndIsRead(t: Entities, s: Bytes, st: State)
    requires Compact(t) && ReadyAt(s, st, |s|)
    ensures Stream(t, s, st) == [END]
  {
    hide Opened;
    assert TokenStart(s, |s|) == |s|;
  }

  lemma StreamStep(t: Entities, s: Bytes, st: State)
    requires Compact(t) && Inside(s, st.look) && Next(s, st).tt != ErrorToken
    ensures Stream(t, s, st) == [Meaning(t, s, Next(s, st))] + Stream(t, s, Next(s, st))
  {
  }

  lemma WrittenOpens(s: Bytes, p: nat, k: Token)
    requires Writable(k) && k.tt != TextToken && At(s, p, Written(k))
    ensures OpensAt(s, p)
  {
    hide At, AttrsString, KeysFit, CommentFits, DoctypeFits, RawName;
    AtInside(s, p, Written(k));
    AtByte(s, p, Written(k), 0);
    AtByte(s, p, Written(k), 1);
  }

  /** A token that no text follows is read back. */
  lemma TokenBack(t: Entities, s: Bytes, st: State, p: nat, k: Token)
    requires Compact(t) && Escape.HasBasics(t) && ReadyAt(s, st, p) && At(s, p, Written(k)) && Writable(k)
    requires k.tt == TextToken ==>
      k.data != [] && (p + |Written(k)| < |s| ==> OpensAt(s, p + |Written(k)|))
    ensures var n := Next(s, st);
      && n.tt == k.tt != ErrorToken && ReadyAt(s, n, p + |Written(k)|) && Meaning(t, s, n) == Reread(t, k)
  {
    hide At, Compact, Escape.HasBasics, NameFits, KeysFit, CommentFits, DoctypeFits, RawName, Next, Meaning, Written,
         OpensAt, WellFormed;
    match k.tt
    case ErrorToken =>
    case TextToken => TextBack(t, s, st, p, k);
    case StartTagToken | SelfClosingTagToken => StartTagBack(t, s, st, p, k);
    case EndTagToken => EndTagBack(t, s, st, p, k);
    case CommentToken => CommentBack(t, s, st, p, k);
    case DoctypeToken => DoctypeBack(t, s, st, p, k);
  }

  lemma TextWritten(k: Token)
    requires k.tt == TextToken
    ensures Written(k) == Escape.Escaped(k.data)
  {
  }

  lemma WrittenFirst(k: Token, rest: seq<Token>)
    ensures WrittenAll([k] + rest) == Written(k) + WrittenAll(rest)
  {
    assert ([k] + rest)[1..] == rest;
  }

  /** Two texts in a row are written like one. */
  lemma TextsJoin(ks: seq<Token>)
    requires |ks| > 1 && ks[0].tt == TextToken && ks[1].tt == TextToken
    ensures WrittenAll([Token(TextToken, ks[0].data + ks[1].data, [])] + ks[2..]) == WrittenAll(ks)
  {
    hide Escape.Escaped, Written, WrittenAll;
    var k, rest := Token(TextToken, ks[0].data + ks[1].data, []), ks[2..];
    TextWritten(k);
    TextWritten(ks[0]);
    TextWritten(ks[1]);
    Escape.EscapedConcat(ks[0].data, ks[1].data);
    WrittenFirst(k, rest);
    WrittenFirst(ks[1], rest);
    WrittenFirst(ks[0], [ks[1]] + rest);
    assert ks == [ks[0]] + ([ks[1]] + rest);
  }

  lemma NextStarts(s: Bytes, p: nat, ks: seq<Token>)
    requires AllWritable(ks) && At(s, p, WrittenAll(ks)) && p + |WrittenAll(ks)| == |s|
    requires ks != [] ==> ks[0].tt != TextToken
    ensures p < |s| ==> OpensAt(s, p)
  {
    hide At, Writable, Written, OpensAt;
    if ks != [] {
      AtSplit(s, p, Written(ks[0]), WrittenAll(ks[1..]));
      WrittenOpens(s, p, ks[0]);
    }
  }

  /** What String writes of a list of tokens is read back as these tokens, wherever the tokenizer starts. */
  lemma {:induction false} StringsBack(t: Entities, s: Bytes, st: State, p: nat, ks: seq<Token>)
    requires Compact(t) && Escape.HasBasics(t) && ReadyAt(s, st, p) && AllWritable(ks)
    requires At(s, p, WrittenAll(ks)) && p + |WrittenAll(ks)| == |s|
    ensures Stream(t, s, st) == Joined(t, ks) + [END]
    decreases |ks|
  {
    hide At, Compact, Escape.HasBasics, Next, Meaning, Written, OpensAt, Writable, Stream, Reread;
    if ks == [] {
      EndIsRead(t, s, st);
    } else if ks[0].tt == TextToken && |ks| > 1 && ks[1].tt == TextToken && ks[0].data != [] {
      TextsJoin(ks);
      JoinedWritable(ks);
      StringsBack(t, s, st, p, [Token(TextToken, ks[0].data + ks[1].data, [])] + ks[2..]);
    } else {
      var k, rest := ks[0], ks[1..];
      AtSplit(s, p, Written(k), WrittenAll(rest));
      if k.tt == TextToken && k.data == [] {
        NothingWritten(k);
        StringsBack(t, s, st, p, rest);
      } else {
        if k.tt == TextToken {
          NextStarts(s, p + |Written(k)|, rest);
        }
        TokenBack(t, s, st, p, k);
        StreamStep(t, s, st);
        StringsBack(t, s, Next(s, st), p + |Written(k)|, rest);
        assert [Reread(t, k)] + (Joined(t, rest) + [END]) == Joined(t, ks) + [END];
      }
    }
  }

  lemma JoinedWritable(ks: seq<Token>)
    requires |ks| > 1 && AllWritable(ks)
    ensures AllWritable([Token(TextToken, ks[0].data + ks[1].data, [])] + ks[2..])
  {
    hide NameFits, KeysFit, CommentFits, DoctypeFits, RawName;
  }

  lemma NothingWritten(k: Token)
    requires k.tt == TextToken && k.data == []
    ensures Written(k) == []
  {
  }

  /** A tag with one attribute, whatever its name and its value: the name and the key come back in lower case, the value
      byte for byte, and nothing else does. */
  lemma OneTagBack(t: Entities, st: State, name: Bytes, key: Bytes, v: Bytes)
    requires Compact(t) && Escape.HasBasics(t) && NameFits(name) && KeyFits(key)
    requires var s := [LT] + name + [SPACE] + key + [EQ, DOUBLE_QUOTE] + Escape.Escaped(v) + [DOUBLE_QUOTE, GT];
      ReadyAt(s, st, 0) && !st.look.err
    ensures var s := [LT] + name + [SPACE] + key + [EQ, DOUBLE_QUOTE] + Escape.Escaped(v) + [DOUBLE_QUOTE, GT];
      Stream(t, s, st) == [Token(StartTagToken, LowerAll(name), [Attr(LowerAll(key), v)]), END]
  {
    hide Compact, Escape.HasBasics, Escape.Escaped, Next, Meaning, NameFits, KeyFits, RawName, LowerAll, Stream;
    var s := [LT] + name + [SPACE] + key + [EQ, DOUBLE_QUOTE] + Escape.Escaped(v) + [DOUBLE_QUOTE, GT];
    var k := Token(StartTagToken, name, [Attr(key, v)]);
    assert Written(k) == s by {
      OneAttrString(Attr(key, v));
    }
    assert s[0..0 + |s|] == s;
    StartTagBack(t, s, st, 0, k);
    StreamStep(t, s, st);
    NothingBehind(t, s, Next(s, st));
    assert LowerAttrs(k.attr) == [Attr(LowerAll(key), v)];
  }

  /** Behind the last tag nothing is read, even if it is one of raw text. */
  lemma NothingBehind(t: Entities, s: Bytes, st: State)
    requires Compact(t) && Inside(s, st.look) && st.look.end == |s|
    ensures Stream(t, s, st) == [END]
  {
    hide Opened, Script1, RawEndTag;
    assert TokenStart(s, |s|) == |s|;
    assert Script(s, |s|, Data) == (|s|, true);
    assert RawText(s, |s|, st.rawTag) == (|s|, true);
  }

  /** "<a b=c/>" */
  const BARE_SLASH: Bytes := [LT, 0x61, SPACE, 0x62, EQ, 0x63, SLASH, GT]

  const C_SLASH: Bytes := [0x63, SLASH]

  /** A bare value takes in the "/" in front of the end of a tag, and the tag closes itself all the same. */
  lemma BareSlash(t: Entities, st: State)
    requires Compact(t) && ReadyAt(BARE_SLASH, st, 0) && !st.look.err
    ensures Stream(t, BARE_SLASH, st) == [Token(SelfClosingTagToken, [0x61], [Attr([0x62], C_SLASH)]), END]
  {
    hide Compact, Next, Meaning, Stream, Unescaped, Escape.Newlines, TagFits, SpellTag;
    var x := Spelling([0x62], [], [], Unquoted(C_SLASH), []);
    var g := Spelled([0x61], [SPACE], [x], [GT]);
    BareSlashSpelled(x, g);
    BareSlashFits(x, g);
    SpelledBack(t, BARE_SLASH, st, 0, g);
    BareSlashRead(t);
    StreamStep(t, BARE_SLASH, st);
    NothingBehind(t, BARE_SLASH, Next(BARE_SLASH, st));
    assert LowerAll([0x61]) == [0x61] && LowerAll([0x62]) == [0x62];
    assert AttrsOf(t, g.attrs) == [Attr([0x62], C_SLASH)];
  }

  lemma BareSlashRead(t: Entities)
    requires Compact(t)
    ensures Unescaped(t, Escape.Newlines(C_SLASH), true) == C_SLASH
  {
    hide Compact, Unescaped, Escape.Newlines;
    Escape.NewlinesPlain(C_SLASH);
    UnescapedPlain(t, C_SLASH, true);
    assert C_SLASH[1..] == [SLASH] && [SLASH][1..] == [];
    UnescapedPlain(t, [SLASH], true);
    UnescapedNothing(t, true);
  }

  lemma BareSlashSpelled(x: Spelling, g: Spelled)
    requires x == Spelling([0x62], [], [], Unquoted(C_SLASH), []) && g == Spelled([0x61], [SPACE], [x], [GT])
    ensures SpellTag(g) == [0x61, SPACE, 0x62, EQ, 0x63, SLASH, GT] && SpellTag(g)[|SpellTag(g)| - 2] == SLASH
    ensures [LT] + SpellTag(g) == BARE_SLASH && At(BARE_SLASH, 0, BARE_SLASH)
  {
    hide Spell;
    OneSpelled(x);
    assert g.attrs[1..] == [] && SpellAll(g.attrs) == Spell(x);
  }

  lemma OneSpelled(x: Spelling)
    requires x == Spelling([0x62], [], [], Unquoted(C_SLASH), [])
    ensures Spell(x) == [0x62, EQ, 0x63, SLASH]
  {
  }

  lemma BareSlashFits(x: Spelling, g: Spelled)
    requires x == Spelling([0x62], [], [], Unquoted(C_SLASH), []) && g == Spelled([0x61], [SPACE], [x], [GT])
    ensures TagFits(g)
  {
    assert g.attrs[1..] == [];
  }
}
