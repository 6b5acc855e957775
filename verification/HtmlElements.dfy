/** Elements whose content is raw text, and declarations, said of the characters that stand in the document. */
module HtmlElements {
  import opened Utf8
  import Escape = HtmlEscape
  import opened HtmlEntity
  import opened HtmlTokens
  import opened HtmlStream
  import opened HtmlMeaning
  import opened HtmlAttributes
  import opened HtmlNames
  import opened HtmlRoundTrip

  // ----- characters -----

  const CAPITALS := "ABCDEFGHIJKLMNOPQRSTUVWXYZ"
  const SMALL := "abcdefghijklmnopqrstuvwxyz"

  lemma SmallAre(k: nat)
    requires k < 26
    ensures CAPITALS[k] as int == 0x41 + k && SMALL[k] as int == 0x61 + k
  {
  }

  /** A capital becomes its small letter, and every other byte stays. */
  lemma LowerIsSmall(c: Byte)
    ensures IsLetter(c) <==> c in Ascii(CAPITALS) || c in Ascii(SMALL)
    ensures Lower(c) == c <==> c !in Ascii(CAPITALS)
    ensures forall k :: 0 <= k < 26 && c == CAPITALS[k] as int ==> Lower(c) == SMALL[k] as int
  {
    hide CAPITALS, SMALL;
    Lengths();
    forall k: nat | k < 26 ensures CAPITALS[k] as int == 0x41 + k && SMALL[k] as int == 0x61 + k {
      SmallAre(k);
    }
    if 0x41 <= c <= 0x5A {
      assert Ascii(CAPITALS)[c - 0x41] == c;
    } else if 0x61 <= c <= 0x7A {
      assert Ascii(SMALL)[c - 0x61] == c;
    }
  }

  lemma Lengths()
    ensures |CAPITALS| == 26 && |SMALL| == 26
    ensures forall k :: 0 <= k < 26 ==> CAPITALS[k] as int < 0x80 && SMALL[k] as int < 0x80
  {
  }

  const WHITE := " \n\r\t\U{000C}"

  /** White space, and what ends a name, a key and a value without quotes. */
  lemma StopsAre(c: Byte)
    ensures c in SPACES <==> c in Ascii(WHITE)
    ensures c in NAME_STOPS <==> c in Ascii(WHITE) || c in Ascii("/>")
    ensures c in KEY_STOPS <==> c in Ascii(WHITE) || c in Ascii("/=>")
    ensures c in VALUE_STOPS <==> c in Ascii(WHITE) || c in Ascii(">")
    ensures Ascii("<>/!?-='\"]") == [LT, GT, SLASH, BANG, QUESTION, DASH, EQ, QUOTE, DOUBLE_QUOTE, BRACKET]
  {
    assert Ascii(WHITE) == [0x20, 0x0A, 0x0D, 0x09, 0x0C];
    assert Ascii("/>") == [SLASH, GT] && Ascii("/=>") == [SLASH, EQ, GT] && Ascii(">") == [GT];
  }

  /** The elements whose content is raw text, and the words that open a doctype and a CDATA section. */
  lemma WordsAre()
    ensures IFRAME == Ascii("iframe") && NOEMBED == Ascii("noembed") && NOFRAMES == Ascii("noframes")
    ensures NOSCRIPT == Ascii("noscript") && PLAINTEXT == Ascii("plaintext") && SCRIPT == Ascii("script")
    ensures STYLE == Ascii("style") && TEXTAREA == Ascii("textarea") && TITLE == Ascii("title") && XMP == Ascii("xmp")
    ensures RAW_TAGS == {Ascii("iframe"), Ascii("noembed"), Ascii("noframes"), Ascii("noscript"), Ascii("plaintext"),
                         Ascii("script"), Ascii("style"), Ascii("textarea"), Ascii("title"), Ascii("xmp")}
    ensures DOCTYPE == Ascii("doctype") && CDATA == Ascii("[CDATA[")
    ensures COMMENT_OPEN == Ascii("<!--") && COMMENT_CLOSE == Ascii("-->") && DOCTYPE_OPEN == Ascii("<!DOCTYPE ")
  {
  }

  // ----- raw text -----

  /** The end tag of an element, as it is written. */
  function EndTagOf(name: Bytes): Bytes {
    [LT, SLASH] + name + [GT]
  }

  /** What may stand in an element of raw text: no end tag of it, no "<" at the end, and, in a script, no "<!--". */
  ghost predicate BodyFits(d: Bytes, name: Bytes) {
    && (forall k: nat :: k < |d| ==> !EndTagAt(d + EndTagOf(name), k, name))
    && (name == SCRIPT ==> forall k: nat :: k < |d| ==> !CommentAt(d + EndTagOf(name), k))
    && (d != [] ==> d[|d| - 1] != LT)
  }

  /** Text without "<" always fits. */
  lemma BodiesFit(d: Bytes, name: Bytes)
    requires LT !in d
    ensures BodyFits(d, name)
  {
    var w := d + EndTagOf(name);
    assert forall k :: 0 <= k < |d| ==> w[k] == d[k] && w[k] != LT;
  }

  lemma EndTagMoved(s: Bytes, p: nat, w: Bytes, k: nat, tag: Bytes)
    requires At(s, p, w) && k + 2 + |tag| < |w|
    ensures EndTagAt(s, p + k, tag) <==> EndTagAt(w, k, tag)
  {
    forall i: nat | i < |w| ensures s[p + i] == w[i] {
      AtByte(s, p, w, i);
    }
    forall i | k + 2 <= i < k + 2 + |tag| ensures s[p + i] == w[i] && tag[p + i - (p + k) - 2] == tag[i - k - 2] {
      AtByte(s, p, w, i);
    }
    if EndTagAt(w, k, tag) {
      forall j | p + k + 2 <= j < p + k + 2 + |tag| ensures Letter(s[j], tag[j - (p + k) - 2]) {
        assert s[p + (j - p)] == w[j - p];
      }
    }
  }

  lemma EndTagThere(s: Bytes, p: nat, name: Bytes)
    requires At(s, p, EndTagOf(name))
    ensures EndTagAt(s, p, name)
  {
    var w := EndTagOf(name);
    AtByte(s, p, w, 0);
    AtByte(s, p, w, 1);
    AtByte(s, p, w, |w| - 1);
    forall i | p + 2 <= i < p + 2 + |name| ensures Letter(s[i], name[i - p - 2]) {
      AtByte(s, p, w, i - p);
    }
  }

  lemma CommentMoved(s: Bytes, p: nat, w: Bytes, k: nat)
    requires At(s, p, w) && k + 4 <= |w|
    ensures CommentAt(s, p + k) <==> CommentAt(w, k)
  {
    AtByte(s, p, w, k);
    AtByte(s, p, w, k + 1);
    AtByte(s, p, w, k + 2);
    AtByte(s, p, w, k + 3);
  }

  /** No end tag comes before the element's own. */
  lemma NoneBefore(s: Bytes, p: nat, d: Bytes, name: Bytes)
    requires At(s, p, d + EndTagOf(name)) && BodyFits(d, name)
    ensures p + |d| < |s| && EndTagAt(s, p + |d|, name)
    ensures forall e: nat :: p <= e < p + |d| ==> !EndTagAt(s, e, name)
    ensures name == SCRIPT ==> forall e: nat :: p <= e < p + |d| ==> !CommentAt(s, e)
    ensures d != [] ==> s[p + |d| - 1] != LT
  {
    hide At, EndTagAt, CommentAt;
    var w := d + EndTagOf(name);
    AtSplit(s, p, d, EndTagOf(name));
    EndTagThere(s, p + |d|, name);
    AtByte(s, p + |d|, EndTagOf(name), 0);
    forall e: nat | p <= e < p + |d| ensures !EndTagAt(s, e, name) {
      EndTagMoved(s, p, w, e - p, name);
    }
    if name == SCRIPT {
      forall e: nat | p <= e < p + |d| ensures !CommentAt(s, e) {
        CommentMoved(s, p, w, e - p);
      }
    }
    if d != [] {
      AtByte(s, p, d, |d| - 1);
    }
  }

  lemma OwnEndStops(s: Bytes, p: nat, e: nat, name: Bytes)
    requires p <= e <= |s| && EndTagAt(s, e, name) && (p < e ==> s[e - 1] != LT)
    ensures Stops(s, p, e, name)
  {
    hide EndTagAt;
    assert Run(s, p, e) == 0;
  }

  /** Raw text ends in front of the end tag of its element. */
  lemma RawEnds(s: Bytes, p: nat, d: Bytes, name: Bytes)
    requires At(s, p, d + EndTagOf(name)) && BodyFits(d, name) && name in RAW_TAGS - {PLAINTEXT}
    ensures p + |d| < |s|
    ensures if name == SCRIPT then Script(s, p, Data) == (p + |d|, false) else RawText(s, p, name) == (p + |d|, false)
  {
    hide At, EndTagAt, BodyFits, CommentAt, Run;
    NoneBefore(s, p, d, name);
    var end := p + |d|;
    if name == SCRIPT {
      ScriptTo(s, p, end);
    } else {
      NamesAreSmall(name);
      OwnEndStops(s, p, end, name);
      RawTextIsFirst(s, p, name);
    }
  }

  lemma NamesAreSmall(name: Bytes)
    requires name in RAW_TAGS
    ensures name != [] && forall k :: 0 <= k < |name| ==> 0x61 <= name[k] <= 0x7A
  {
  }

  lemma ScriptAtEnd(s: Bytes, p: nat)
    requires p < |s| && EndTagAt(s, p, SCRIPT)
    ensures Script(s, p, Data) == (p, false)
  {
    hide Script, RawEndTag;
    RawEndTagFinds(s, p + 2, SCRIPT);
    HtmlMeaning.ScriptStep(s, p, Data, LessThanSign, p + 1);
    HtmlMeaning.ScriptStep(s, p + 1, LessThanSign, EndTagOpen, p + 2);
    ScriptStops(s, p + 2, EndTagOpen, p, false);
  }

  lemma EndTagSpace(s: Bytes, e: nat)
    requires EndTagAt(s, e, SCRIPT)
    ensures e + 8 < |s| && s[e] == LT
  {
  }

  /** Where a "<" that opens neither an end tag nor "<!--" leads: further on, but not behind the next "<". */
  lemma ScriptPasses(s: Bytes, p: nat, end: nat) returns (q: nat)
    requires p < end < |s| && s[p] == LT && !EndTagAt(s, p, SCRIPT) && !CommentAt(s, p)
    requires EndTagAt(s, end, SCRIPT)
    ensures p < q <= end && Script(s, p, Data) == Script(s, q, Data)
  {
    hide Script, RawEndTag, EndTagAt;
    EndTagSpace(s, end);
    HtmlMeaning.ScriptStep(s, p, Data, LessThanSign, p + 1);
    if s[p + 1] == SLASH {
      RawEndTagFinds(s, p + 2, SCRIPT);
      q := RawEndTag(s, p + 2, SCRIPT).end;
      if q > end {
        TagPart(s, p, end, SCRIPT);
      }
      HtmlMeaning.ScriptStep(s, p + 1, LessThanSign, EndTagOpen, p + 2);
      HtmlMeaning.ScriptStep(s, p + 2, EndTagOpen, Data, q);
    } else if s[p + 1] == BANG {
      ScriptBang(s, p);
      q := if s[p + 2] != DASH then p + 2 else p + 3;
    } else {
      q := p + 1;
      HtmlMeaning.ScriptStep(s, p + 1, LessThanSign, Data, p + 1);
    }
  }

  /** A script runs up to its first end tag if no "<!--" comes before that. */
  lemma {:induction false} ScriptTo(s: Bytes, p: nat, end: nat)
    requires p <= end < |s| && EndTagAt(s, end, SCRIPT)
    requires forall e: nat :: p <= e < end ==> !EndTagAt(s, e, SCRIPT) && !CommentAt(s, e)
    ensures Script(s, p, Data) == (end, false)
    decreases end - p
  {
    hide EndTagAt, CommentAt, Script;
    if p == end {
      ScriptAtEnd(s, p);
    } else if s[p] == LT {
      var q := ScriptPasses(s, p, end);
      ScriptTo(s, q, end);
    } else {
      HtmlMeaning.ScriptStep(s, p, Data, Data, p + 1);
      ScriptTo(s, p + 1, end);
    }
  }

  /** What Token makes of raw text: only titles and text areas have references. */
  ghost function RawMeans(t: Entities, d: Bytes, name: Bytes): Bytes
    requires Compact(t)
  {
    var clean := WithoutNuls(Escape.Newlines(d));
    if name in {Ascii("title"), Ascii("textarea")} then Unescaped(t, clean, false) else clean
  }

  /** Raw text is due at p. */
  ghost predicate RawAt(s: Bytes, st: State, p: nat, name: Bytes) {
    Inside(s, st.look) && st.look.end == p && !st.look.err && st.rawTag == name
  }

  lemma OnlyTitles(name: Bytes)
    ensures name in {Ascii("title"), Ascii("textarea")} <==> name == TEXTAREA || name == TITLE
  {
    WordsAre();
  }

  lemma RawBack(t: Entities, s: Bytes, st: State, p: nat, d: Bytes, name: Bytes)
    requires Compact(t) && RawAt(s, st, p, name) && name in RAW_TAGS - {PLAINTEXT}
    requires d != [] && BodyFits(d, name) && At(s, p, d + EndTagOf(name))
    ensures var n := Next(s, st);
      && n.tt == TextToken && ReadyAt(s, n, p + |d|) && !n.look.err
      && Meaning(t, s, n) == Token(TextToken, RawMeans(t, d, name), [])
  {
    hide At, Compact, BodyFits, EndTagOf, Escape.Newlines, Unescaped, WithoutNuls, Script, RawText, Opened, SpansInside,
         RAW_TAGS, TEXTAREA, TITLE;
    NamesAreSmall(name);
    OnlyTitles(name);
    AtSplit(s, p, d, EndTagOf(name));
    PartAt(s, p, d);
    RawEnds(s, p, d, name);
  }

  /** An element without text in it. */
  lemma NoRawBack(t: Entities, s: Bytes, st: State, p: nat, name: Bytes)
    requires RawAt(s, st, p, name) && name in RAW_TAGS - {PLAINTEXT} && At(s, p, EndTagOf(name))
    ensures Next(s, st) == Next(s, st.(rawTag := []))
  {
    hide At, EndTagOf, Script, RawText, Opened, SpansInside, RAW_TAGS;
    NamesAreSmall(name);
    assert [] + EndTagOf(name) == EndTagOf(name);
    NothingFits(name);
    RawEnds(s, p, [], name);
  }

  lemma NothingFits(name: Bytes)
    ensures BodyFits([], name)
  {
  }

  function StartOf(name: Bytes): Token {
    Token(StartTagToken, name, [])
  }

  function EndOf(name: Bytes): Token {
    Token(EndTagToken, name, [])
  }

  lemma RawNames(name: Bytes)
    requires name in RAW_TAGS
    ensures NameFits(name) && LowerAll(name) == name && RawName(name) == name
    ensures Written(StartOf(name)) == [LT] + name + [GT] && Written(EndOf(name)) == EndTagOf(name)
    ensures forall t: Entities :: Compact(t) ==>
      Reread(t, StartOf(name)) == StartOf(name) && Reread(t, EndOf(name)) == EndOf(name)
  {
    hide RAW_TAGS;
    NamesAreSmall(name);
    forall k | 0 <= k < |name| ensures IsLetter(name[k]) && Lower(name[k]) == name[k] {
      assert 0x61 <= name[k] <= 0x7A;
    }
    assert LowerAll(name) == name;
    assert name + [] == name;
  }

  lemma StartBack(t: Entities, s: Bytes, st: State, p: nat, name: Bytes)
    requires Compact(t) && Escape.HasBasics(t) && ReadyAt(s, st, p) && name in RAW_TAGS && At(s, p, [LT] + name + [GT])
    ensures var n := Next(s, st);
      && Inside(s, st.look) && RawAt(s, n, p + |name| + 2, name) && n.tt == StartTagToken
      && Meaning(t, s, n) == StartOf(name)
  {
    hide At, Compact, Escape.HasBasics, Next, Meaning, NameFits, LowerAll, RawName, Written, RAW_TAGS, Reread;
    RawNames(name);
    StartTagBack(t, s, st, p, StartOf(name));
  }

  lemma EndBack(t: Entities, s: Bytes, st: State, p: nat, name: Bytes)
    requires Compact(t) && ReadyAt(s, st, p) && name in RAW_TAGS && At(s, p, EndTagOf(name))
    ensures var n := Next(s, st);
      && Inside(s, st.look) && ReadyAt(s, n, p + |name| + 3) && n.tt == EndTagToken && Meaning(t, s, n) == EndOf(name)
  {
    hide At, Compact, Next, Meaning, NameFits, LowerAll, RawName, Written, RAW_TAGS, Reread;
    RawNames(name);
    EndTagBack(t, s, st, p, EndOf(name));
  }

  lemma RestBack(t: Entities, s: Bytes, st: State, p: nat, name: Bytes, ks: seq<Token>)
    requires Compact(t) && Escape.HasBasics(t) && ReadyAt(s, st, p) && name in RAW_TAGS && AllWritable(ks)
    requires At(s, p, EndTagOf(name) + WrittenAll(ks)) && p + |EndTagOf(name) + WrittenAll(ks)| == |s|
    ensures Next(s, st).tt == EndTagToken && Stream(t, s, st) == [EndOf(name)] + (Joined(t, ks) + [END])
  {
    hide At, Compact, Escape.HasBasics, Next, Meaning, RAW_TAGS, AllWritable, WrittenAll, Joined, Stream;
    AtSplit(s, p, EndTagOf(name), WrittenAll(ks));
    EndBack(t, s, st, p, name);
    StreamStep(t, s, st);
    StringsBack(t, s, Next(s, st), p + |name| + 3, ks);
  }

  /** An element of raw text, and what String has written behind it: its text is what stands up to its end tag. */
  lemma ElementBack(t: Entities, s: Bytes, st: State, p: nat, name: Bytes, d: Bytes, ks: seq<Token>)
    requires Compact(t) && Escape.HasBasics(t) && ReadyAt(s, st, p) && name in RAW_TAGS - {PLAINTEXT}
    requires BodyFits(d, name) && AllWritable(ks)
    requires var w := [LT] + name + [GT] + (d + (EndTagOf(name) + WrittenAll(ks))); At(s, p, w) && p + |w| == |s|
    ensures Stream(t, s, st)
         == [StartOf(name)] + ((if d == [] then [] else [Token(TextToken, RawMeans(t, d, name), [])])
                               + ([EndOf(name)] + (Joined(t, ks) + [END])))
  {
    hide At, Compact, Escape.HasBasics, Next, Meaning, RAW_TAGS, AllWritable, WrittenAll, Joined, Stream, BodyFits,
         RawMeans, PLAINTEXT, EndTagOf;
    var q, rest := p + |name| + 2, EndTagOf(name) + WrittenAll(ks);
    AtSplit(s, p, [LT] + name + [GT], d + rest);
    AtSplit(s, q, d, rest);
    StartBack(t, s, st, p, name);
    var n := Next(s, st);
    StreamStep(t, s, st);
    if d == [] {
      AtSplit(s, q, EndTagOf(name), WrittenAll(ks));
      NoRawBack(t, s, n, q, name);
      RestBack(t, s, n.(rawTag := []), q, name, ks);
      SameNext(t, s, n, n.(rawTag := []));
    } else {
      assert d + rest == (d + EndTagOf(name)) + WrittenAll(ks);
      AtSplit(s, q, d + EndTagOf(name), WrittenAll(ks));
      RawBack(t, s, n, q, d, name);
      StreamStep(t, s, n);
      RestBack(t, s, Next(s, n), q + |d|, name, ks);
    }
  }

  lemma SameNext(t: Entities, s: Bytes, a: State, b: State)
    requires Compact(t) && Inside(s, a.look) && Inside(s, b.look) && Next(s, a) == Next(s, b)
    ensures Stream(t, s, a) == Stream(t, s, b)
  {
    hide Next, Meaning;
  }

  function NulOf(c: Byte): Bytes {
    if c == 0 then REPLACEMENT else [c]
  }

  lemma NulsFirst(c: Byte, rest: Bytes)
    ensures WithoutNuls([c] + rest) == NulOf(c) + WithoutNuls(rest) && WithoutNuls([]) == []
  {
    assert ([c] + rest)[1..] == rest;
  }

  lemma {:induction false} NulsConcat(a: Bytes, b: Bytes)
    ensures WithoutNuls(a + b) == WithoutNuls(a) + WithoutNuls(b)
  {
    hide WithoutNuls, NulOf;
    NulsFirst(0, []);
    if a == [] {
      assert a + b == b;
    } else {
      var rest := a[1..];
      NulsConcat(rest, b);
      NulsFirst(a[0], rest + b);
      NulsFirst(a[0], rest);
      assert a + b == [a[0]] + (rest + b) && a == [a[0]] + rest;
    }
  }

  /** Escaping one byte and replacing NULs may change places. */
  lemma NulEscaped(c: Byte)
    ensures Escape.Escaped([c]) == Escape.EscapeOf(c)
    ensures WithoutNuls(Escape.EscapeOf(c)) == Escape.Escaped(NulOf(c))
  {
    assert [c][1..] == [];
    if c == 0 {
      NulsFirst(0, []);
      Escape.EscapedPlain(REPLACEMENT);
    } else {
      NoNuls(Escape.EscapeOf(c));
    }
  }

  lemma {:induction false} EscapedNuls(v: Bytes)
    ensures WithoutNuls(Escape.Escaped(v)) == Escape.Escaped(WithoutNuls(v))
  {
    hide WithoutNuls, Escape.EscapeOf, NulOf;
    NulsFirst(0, []);
    if v != [] {
      var rest := v[1..];
      EscapedNuls(rest);
      NulEscaped(v[0]);
      NulsConcat(Escape.EscapeOf(v[0]), Escape.Escaped(rest));
      NulsFirst(v[0], rest);
      Escape.EscapedConcat(NulOf(v[0]), WithoutNuls(rest));
      assert v == [v[0]] + rest;
    }
  }

  /** The text of a title or a text area comes back if it has been escaped, but for its NULs, and the text of every
      other element comes back as it is if it has no NUL and no carriage return. */
  lemma RawMeansBack(t: Entities, v: Bytes, name: Bytes)
    requires Compact(t) && Escape.HasBasics(t)
    ensures name in {Ascii("title"), Ascii("textarea")} ==>
      BodyFits(Escape.Escaped(v), name) && RawMeans(t, Escape.Escaped(v), name) == WithoutNuls(v)
    ensures name !in {Ascii("title"), Ascii("textarea")} && 0 !in v && Escape.RETURN !in v ==> RawMeans(t, v, name) == v
  {
    hide Compact, Escape.HasBasics, Escape.Escaped, Escape.Newlines, Unescaped, WithoutNuls;
    if name in {Ascii("title"), Ascii("textarea")} {
      EscapedClean(v, LT);
      BodiesFit(Escape.Escaped(v), name);
      Escape.EscapedHasNoReturn(v);
      Escape.NewlinesPlain(Escape.Escaped(v));
      EscapedNuls(v);
      Escape.UnescapeEscape(t, WithoutNuls(v), false);
    } else if 0 !in v && Escape.RETURN !in v {
      Escape.NewlinesPlain(v);
      NoNuls(v);
    }
  }

  /** Behind a plaintext tag everything is text. */
  lemma PlaintextBack(t: Entities, s: Bytes, st: State, p: nat, d: Bytes)
    requires Compact(t) && Escape.HasBasics(t) && ReadyAt(s, st, p) && d != []
    requires var w := [LT] + Ascii("plaintext") + [GT] + d; At(s, p, w) && p + |w| == |s|
    ensures Stream(t, s, st)
         == [StartOf(Ascii("plaintext")), Token(TextToken, RawMeans(t, d, Ascii("plaintext")), []), END]
  {
    hide At, Compact, Escape.HasBasics, Next, Meaning, RAW_TAGS, Stream, RawMeans, PLAINTEXT;
    var name := Ascii("plaintext");
    WordsAre();
    var q := p + |name| + 2;
    AtSplit(s, p, [LT] + name + [GT], d);
    StartBack(t, s, st, p, name);
    var n := Next(s, st);
    StreamStep(t, s, st);
    PlaintextRest(t, s, n, q, d);
    StreamStep(t, s, n);
    NothingBehind(t, s, Next(s, n));
  }

  lemma PlaintextRest(t: Entities, s: Bytes, st: State, p: nat, d: Bytes)
    requires Compact(t) && RawAt(s, st, p, PLAINTEXT) && d != [] && At(s, p, d) && p + |d| == |s|
    ensures var n := Next(s, st);
      && n.tt == TextToken && n.look.end == |s| && Meaning(t, s, n) == Token(TextToken, RawMeans(t, d, PLAINTEXT), [])
  {
    hide At, Compact, Escape.Newlines, Unescaped, WithoutNuls, Script, RawText, Opened, SpansInside;
    OnlyTitles(PLAINTEXT);
    PartAt(s, p, d);
  }
}
