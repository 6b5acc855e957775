/** Tags as a document may spell them, and what the tokenizer marks in them. */
module HtmlAttributes {
  import opened Utf8
  import opened HtmlTokens
  import opened HtmlStream

  // ----- what stands at a position -----

  ghost predicate At(s: Bytes, p: nat, w: Bytes) {
    p + |w| <= |s| && s[p..p + |w|] == w
  }

  lemma AtInside(s: Bytes, p: nat, w: Bytes)
    requires At(s, p, w)
    ensures p + |w| <= |s|
  {
  }

  lemma AtSplit(s: Bytes, p: nat, a: Bytes, b: Bytes)
    requires At(s, p, a + b)
    ensures At(s, p, a) && At(s, p + |a|, b)
  {
    var x := s[p..p + |a + b|];
    assert x[..|a|] == a && x[|a|..] == b;
  }

  lemma AtByte(s: Bytes, p: nat, w: Bytes, k: nat)
    requires At(s, p, w) && k < |w|
    ensures p + k < |s| && s[p + k] == w[k]
  {
    assert s[p..p + |w|][k] == s[p + k];
  }

  lemma PartAt(s: Bytes, p: nat, w: Bytes)
    requires At(s, p, w)
    ensures p + |w| <= |s| && Part(s, Span(p, p + |w|)) == w
  {
  }

  lemma UntilIs(s: Bytes, p: nat, stops: set<Byte>, w: Bytes)
    requires At(s, p, w) && (forall k :: 0 <= k < |w| ==> w[k] !in stops)
    requires p + |w| < |s| && s[p + |w|] in stops
    ensures Until(s, p, stops) == p + |w|
  {
    hide At;
    var q := Until(s, p, stops);
    if q < p + |w| {
      AtByte(s, p, w, q - p);
    }
  }

  ghost predicate AllSpaces(w: Bytes) {
    forall k :: 0 <= k < |w| ==> w[k] in SPACES
  }

  lemma SkipIs(s: Bytes, p: nat, w: Bytes)
    requires At(s, p, w) && AllSpaces(w) && p + |w| < |s| && s[p + |w|] !in SPACES
    ensures Skip(s, p) == p + |w|
  {
    hide At;
    var q := Skip(s, p);
    if q < p + |w| {
      AtByte(s, p, w, q - p);
    }
  }

  // ----- spelling -----

  /** The value of an attribute: none, in quotes of either kind, or bare. */
  datatype Value = Missing | Quoted(quote: Byte, val: Bytes) | Unquoted(val: Bytes)

  /** An attribute with the white space in front of and behind its "=" and behind it. */
  datatype Spelling = Spelling(key: Bytes, before: Bytes, mid: Bytes, value: Value, after: Bytes)

  function ValueString(v: Value): Bytes {
    match v
    case Missing => []
    case Quoted(quote, val) => [quote] + val + [quote]
    case Unquoted(val) => val
  }

  /** What stands behind the key. */
  function Assigned(x: Spelling): Bytes {
    if x.value.Missing? then [] else x.before + [EQ] + x.mid + ValueString(x.value)
  }

  function Spell(x: Spelling): Bytes {
    x.key + Assigned(x) + x.after
  }

  function SpellAll(xs: seq<Spelling>): Bytes {
    if xs == [] then [] else Spell(xs[0]) + SpellAll(xs[1..])
  }

  /** A key has no white space, "/", "=" or ">", and is not empty. */
  ghost predicate KeyFits(key: Bytes) {
    key != [] && forall k :: 0 <= k < |key| ==> key[k] !in KEY_STOPS
  }

  /** A value in quotes does not have its quote, and a bare one no white space or ">", and no quote in front. */
  ghost predicate ValueFits(v: Value) {
    match v
    case Missing => true
    case Quoted(quote, val) => quote in {QUOTE, DOUBLE_QUOTE} && quote !in val
    case Unquoted(val) =>
      val != [] && val[0] !in {QUOTE, DOUBLE_QUOTE} && forall k :: 0 <= k < |val| ==> val[k] !in VALUE_STOPS
  }

  /** What comes behind the attribute cannot be taken for a part of it. */
  ghost predicate Apart(x: Spelling, tail: Bytes) {
    && tail != [] && tail[0] !in SPACES
    && (x.value.Missing? ==> tail[0] != EQ && (x.after == [] ==> tail[0] == GT || tail == [SLASH, GT]))
    && (x.value.Unquoted? && x.after == [] ==> tail[0] == GT)
  }

  ghost predicate SpellingFits(x: Spelling) {
    KeyFits(x.key) && ValueFits(x.value) && AllSpaces(x.before) && AllSpaces(x.mid) && AllSpaces(x.after)
  }

  predicate IsClose(close: Bytes) {
    close == [GT] || close == [SLASH, GT]
  }

  ghost predicate SpellingsFit(xs: seq<Spelling>, close: Bytes) {
    forall k :: 0 <= k < |xs| ==> SpellingFits(xs[k]) && Apart(xs[k], SpellAll(xs[k + 1..]) + close)
  }

  function RawValue(v: Value): Bytes {
    if v.Missing? then [] else v.val
  }

  // ----- reading one attribute -----

  /** A key and a value are where they are spelled. */
  ghost predicate Marks(s: Bytes, key: Span, val: Span, x: Spelling) {
    && 0 <= key.start <= key.end <= |s| && 0 <= val.start <= val.end <= |s|
    && Part(s, key) == x.key && Part(s, val) == RawValue(x.value)
  }

  lemma KeyRead(s: Bytes, l: Look, key: Bytes)
    requires Inside(s, l) && KeyFits(key) && At(s, l.end, key) && l.end + |key| < |s| && s[l.end + |key|] in KEY_STOPS
    ensures var q := l.end + |key|;
      AttrKey(s, l) == l.(key := Span(l.end, q), end := if s[q] == EQ || s[q] == GT then q else q + 1)
  {
    hide At, Until;
    UntilIs(s, l.end, KEY_STOPS, key);
  }

  lemma EqualsRead(s: Bytes, l: Look, before: Bytes, mid: Bytes)
    requires Inside(s, l) && !l.err && AllSpaces(before) && AllSpaces(mid)
    requires At(s, l.end, before) && At(s, l.end + |before| + 1, mid)
    requires l.end + |before| + 1 + |mid| < |s|
    requires s[l.end + |before|] == EQ && s[l.end + |before| + 1 + |mid|] !in SPACES
    ensures Equals(s, l) == (true, l.(end := l.end + |before| + 1 + |mid|))
  {
    hide At, Skip, AllSpaces;
    SkipIs(s, l.end, before);
    SkipIs(s, l.end + |before| + 1, mid);
  }

  lemma QuotedRead(s: Bytes, l: Look, quote: Byte, val: Bytes)
    requires Inside(s, l) && !l.err && l.val.start <= l.val.end <= l.end
    requires quote in {QUOTE, DOUBLE_QUOTE} && quote !in val && At(s, l.end, [quote] + val + [quote])
    ensures l.end + |val| + 2 <= |s| && s[l.end] == quote && At(s, l.end + 1, val)
    ensures AttrValue(s, l) == l.(val := Span(l.end + 1, l.end + 1 + |val|), end := l.end + |val| + 2)
  {
    hide At, Until;
    AtSplit(s, l.end, [quote] + val, [quote]);
    AtInside(s, l.end + 1 + |val|, [quote]);
    AtByte(s, l.end + 1 + |val|, [quote], 0);
    AtSplit(s, l.end, [quote], val);
    AtByte(s, l.end, [quote], 0);
    UntilIs(s, l.end + 1, {quote}, val);
  }

  lemma UnquotedRead(s: Bytes, l: Look, val: Bytes)
    requires Inside(s, l) && !l.err && l.val.start <= l.val.end <= l.end && l.start < |s|
    requires ValueFits(Unquoted(val)) && At(s, l.end, val) && l.end + |val| < |s| && s[l.end + |val|] in VALUE_STOPS
    ensures var e := l.end + |val|;
      AttrValue(s, l) == l.(val := Span(l.end, e), end := if s[e] == GT then e else e + 1)
  {
    hide At, Until;
    AtByte(s, l.end, val, 0);
    assert val == [val[0]] + val[1..];
    AtSplit(s, l.end, [val[0]], val[1..]);
    UntilIs(s, l.end + 1, VALUE_STOPS, val[1..]);
  }

  /** What white space skips does not depend on whether some of it has been read. */
  lemma SkipFurther(s: Bytes, p: nat)
    requires p < |s| && s[p] in SPACES
    ensures Skip(s, p + 1) == Skip(s, p)
  {
  }

  lemma AssignedParts(s: Bytes, p: nat, x: Spelling)
    requires !x.value.Missing? && At(s, p, Assigned(x))
    ensures var e := p + |x.before|;
      && At(s, p, x.before) && e < |s| && s[e] == EQ && At(s, e + 1, x.mid)
      && At(s, e + 1 + |x.mid|, ValueString(x.value))
      && |Assigned(x)| == |x.before| + 1 + |x.mid| + |ValueString(x.value)|
  {
    hide At, ValueString;
    var front := x.before + [EQ];
    AtSplit(s, p, front + x.mid, ValueString(x.value));
    AtSplit(s, p, front, x.mid);
    AtSplit(s, p, x.before, [EQ]);
    AtByte(s, p + |x.before|, [EQ], 0);
  }

  lemma ValueStarts(v: Value)
    requires ValueFits(v) && !v.Missing?
    ensures ValueString(v) != [] && ValueString(v)[0] !in SPACES && ValueString(v)[0] != GT
  {
  }

  /** A value and the white space in front of it; only a bare one takes in the byte behind it. */
  lemma ValueRead(s: Bytes, l: Look, x: Spelling)
    requires Inside(s, l) && !l.err && SpellingFits(x) && !x.value.Missing? && At(s, l.end, Assigned(x))
    requires var e := l.end + |Assigned(x)|; x.value.Unquoted? ==> e < |s| && s[e] in VALUE_STOPS
    ensures var r, e := AttrVal(s, l), l.end + |Assigned(x)|;
      && r == l.(val := r.val, end := r.end) && 0 <= r.val.start <= r.val.end <= |s|
      && Part(s, r.val) == RawValue(x.value)
      && (r.end == e || (r.end == e + 1 && e < |s| && s[e] in SPACES))
  {
    hide At, Equals, AttrValue, Part, AllSpaces;
    AssignedParts(s, l.end, x);
    ValueStarts(x.value);
    var p := l.end + |x.before| + 1 + |x.mid|;
    AtByte(s, p, ValueString(x.value), 0);
    var l0 := l.(val := Span(l.end, l.end));
    EqualsRead(s, l0, x.before, x.mid);
    match x.value
    case Quoted(quote, val) =>
      QuotedRead(s, l0.(end := p), quote, val);
      PartAt(s, p + 1, val);
    case Unquoted(val) =>
      UnquotedRead(s, l0.(end := p), val);
      PartAt(s, p, val);
  }

  /** Behind the key the reader takes in one byte of what stands in front of "=". */
  lemma BeforeRead(s: Bytes, p: nat, x: Spelling)
    requires !x.value.Missing? && x.before != [] && AllSpaces(x.before) && At(s, p, Assigned(x))
    ensures var y := x.(before := x.before[1..]);
      At(s, p + 1, Assigned(y)) && |Assigned(y)| == |Assigned(x)| - 1 && AllSpaces(y.before) && s[p] in SPACES
  {
    hide At, ValueString;
    var y := x.(before := x.before[1..]);
    assert Assigned(x) == [x.before[0]] + Assigned(y);
    AtSplit(s, p, [x.before[0]], Assigned(y));
    AtByte(s, p, [x.before[0]], 0);
  }

  lemma AssignedRead(s: Bytes, l: Look, x: Spelling)
    requires Inside(s, l) && !l.err && SpellingFits(x) && !x.value.Missing?
    requires At(s, l.end, x.key) && At(s, l.end + |x.key|, Assigned(x))
    requires var e := l.end + |x.key| + |Assigned(x)|; x.value.Unquoted? ==> e < |s| && s[e] in VALUE_STOPS
    ensures var r, e := AttrVal(s, AttrKey(s, l)), l.end + |x.key| + |Assigned(x)|;
      && r == l.(key := Span(l.end, l.end + |x.key|), val := r.val, end := r.end)
      && 0 <= r.val.start <= r.val.end <= |s| && Part(s, r.val) == RawValue(x.value)
      && (r.end == e || (r.end == e + 1 && e < |s| && s[e] in SPACES))
  {
    hide At, AttrKey, AttrVal, Assigned, AllSpaces, KeyFits, Part;
    var q := l.end + |x.key|;
    AssignedStarts(s, q, x);
    KeyRead(s, l, x.key);
    var k := AttrKey(s, l);
    if x.before == [] {
      ValueRead(s, k, x);
    } else {
      BeforeRead(s, q, x);
      ValueRead(s, k, x.(before := x.before[1..]));
    }
  }

  lemma AssignedStarts(s: Bytes, p: nat, x: Spelling)
    requires !x.value.Missing? && AllSpaces(x.before) && At(s, p, Assigned(x))
    ensures p < |s| && s[p] in KEY_STOPS && s[p] != GT && (s[p] == EQ <==> x.before == [])
  {
    hide At, ValueString;
    AtByte(s, p, Assigned(x), 0);
    assert x.before != [] ==> x.before[0] in SPACES;
  }

  /** A key without a value: what is behind it is not "=". */
  lemma MissingRead(s: Bytes, l: Look, x: Spelling, tail: Bytes)
    requires Inside(s, l) && !l.err && SpellingFits(x) && x.value.Missing? && Apart(x, tail)
    requires At(s, l.end, x.key) && At(s, l.end + |x.key|, x.after) && At(s, l.end + |x.key| + |x.after|, tail)
    ensures var r, e := AttrVal(s, AttrKey(s, l)), l.end + |x.key| + |x.after| + Slashed(x, tail);
      && e < |s| && s[e] !in SPACES
      && r == l.(key := Span(l.end, l.end + |x.key|), val := r.val, end := e)
      && 0 <= r.val.start == r.val.end <= |s|
  {
    hide At, AttrKey, KeyFits, AllSpaces, Skip;
    var q, e := l.end + |x.key|, l.end + |x.key| + |x.after|;
    AtByte(s, e, tail, 0);
    AtInside(s, e, tail);
    if x.after != [] {
      AfterStarts(s, q, x);
    }
    KeyRead(s, l, x.key);
    SkipIs(s, q, x.after);
    if x.after != [] {
      SkipFurther(s, q);
    } else if tail[0] == SLASH {
      AtByte(s, e, tail, 1);
      NoSpace(s, e + 1);
    }
  }

  lemma NoSpace(s: Bytes, p: nat)
    requires p < |s| && s[p] !in SPACES
    ensures Skip(s, p) == p
  {
  }

  lemma AfterStarts(s: Bytes, p: nat, x: Spelling)
    requires AllSpaces(x.after) && At(s, p, x.after) && x.after != []
    ensures p < |s| && s[p] in SPACES
  {
    AtByte(s, p, x.after, 0);
  }

  /** Behind a key without a value the reader takes in the "/" of a tag that closes itself. */
  function Slashed(x: Spelling, tail: Bytes): nat {
    if x.value.Missing? && x.after == [] && tail == [SLASH, GT] then 1 else 0
  }

  lemma SpelledParts(s: Bytes, p: nat, x: Spelling, tail: Bytes)
    requires At(s, p, Spell(x) + tail)
    ensures var q, a := p + |x.key|, |Assigned(x)|;
      && At(s, p, x.key) && At(s, q, Assigned(x)) && At(s, q + a, x.after) && At(s, q + a + |x.after|, tail)
      && |Spell(x)| == |x.key| + a + |x.after|
  {
    hide At, Assigned;
    AtSplit(s, p, Spell(x), tail);
    AtSplit(s, p, x.key + Assigned(x), x.after);
    AtSplit(s, p, x.key, Assigned(x));
  }

  /** Behind an attribute the reader stands at what comes next. */
  lemma BehindRead(s: Bytes, p: nat, x: Spelling, tail: Bytes)
    requires SpellingFits(x) && !x.value.Missing? && Apart(x, tail) && At(s, p, x.after) && At(s, p + |x.after|, tail)
    ensures p + |x.after| < |s| && Skip(s, p) == p + |x.after|
    ensures x.value.Unquoted? ==> s[p] in VALUE_STOPS
  {
    hide At, KeyFits, ValueFits, Skip;
    AtByte(s, p + |x.after|, tail, 0);
    SkipIs(s, p, x.after);
    if x.after != [] {
      AtByte(s, p, x.after, 0);
    }
  }

  lemma AttributeRead(s: Bytes, l: Look, x: Spelling, tail: Bytes, saveAttr: bool)
    requires Inside(s, l) && !l.err && SpellingFits(x) && Apart(x, tail) && At(s, l.end, Spell(x) + tail)
    ensures var r := Attribute1(s, l, saveAttr).1;
      && !Attribute1(s, l, saveAttr).0 && Marks(s, r.key, r.val, x) && r.end < |s|
      && r == l.(key := r.key, val := r.val, end := l.end + |Spell(x)| + Slashed(x, tail),
                 attrs := if saveAttr then l.attrs + [(r.key, r.val)] else l.attrs)
  {
    hide At, Spell, AttrKey, AttrVal, Assigned, SpellingFits, Apart, Skip, Part;
    SpelledParts(s, l.end, x, tail);
    KeyStarts(s, l.end, x);
    var e := l.end + |x.key| + |Assigned(x)|;
    PartAt(s, l.end, x.key);
    if x.value.Missing? {
      NothingAssigned(x);
      MissingRead(s, l, x, tail);
      NoSpace(s, AttrVal(s, AttrKey(s, l)).end);
      PartNothing(s, AttrVal(s, AttrKey(s, l)).val);
    } else {
      BehindRead(s, e, x, tail);
      AssignedRead(s, l, x);
      if AttrVal(s, AttrKey(s, l)).end == e + 1 {
        SkipFurther(s, e);
      }
    }
  }

  lemma KeyStarts(s: Bytes, p: nat, x: Spelling)
    requires SpellingFits(x) && At(s, p, x.key)
    ensures p < |s| && s[p] != GT && x.key != []
  {
    AtByte(s, p, x.key, 0);
  }

  lemma NothingAssigned(x: Spelling)
    requires x.value.Missing?
    ensures Assigned(x) == [] && RawValue(x.value) == []
  {
  }

  lemma PartNothing(s: Bytes, x: Span)
    requires 0 <= x.start == x.end <= |s|
    ensures Part(s, x) == []
  {
  }

  // ----- reading all of them -----

  /** A "/" in front of the end of a tag is no attribute. */
  lemma SlashSkipped(s: Bytes, l: Look, saveAttr: bool)
    requires Inside(s, l) && !l.err && l.end + 1 < |s| && s[l.end] == SLASH && s[l.end + 1] == GT
    ensures Attribute(s, l, saveAttr)
         == l.(key := Span(l.end, l.end), val := Span(l.end + 1, l.end + 1), end := l.end + 1)
  {
    hide Until, Skip;
    assert Until(s, l.end, KEY_STOPS) == l.end;
    NoSpace(s, l.end + 1);
  }

  lemma CloseRead(s: Bytes, l: Look, close: Bytes, saveAttr: bool)
    requires Inside(s, l) && !l.err && IsClose(close) && At(s, l.end, close)
    ensures var r := Attributes(s, l, saveAttr);
      r == l.(key := r.key, val := r.val, end := l.end + |close|)
  {
    hide At, Attribute;
    AtByte(s, l.end, close, 0);
    AtInside(s, l.end, close);
    if close == [SLASH, GT] {
      AtByte(s, l.end, close, 1);
      SlashSkipped(s, l, saveAttr);
    }
  }

  /** What the tokenizer has marked are these attributes. */
  ghost predicate AllMarked(s: Bytes, spans: seq<(Span, Span)>, xs: seq<Spelling>) {
    |spans| == |xs| && forall k :: 0 <= k < |xs| ==> Marks(s, spans[k].0, spans[k].1, xs[k])
  }

  lemma FirstMarked(s: Bytes, a: (Span, Span), more: seq<(Span, Span)>, xs: seq<Spelling>)
    requires xs != [] && Marks(s, a.0, a.1, xs[0]) && AllMarked(s, more, xs[1..])
    ensures AllMarked(s, [a] + more, xs)
  {
    hide Marks;
    forall k | 0 <= k < |xs| ensures Marks(s, ([a] + more)[k].0, ([a] + more)[k].1, xs[k]) {
      if k > 0 {
        assert xs[k] == xs[1..][k - 1];
      }
    }
  }

  lemma FirstFits(xs: seq<Spelling>, close: Bytes)
    requires SpellingsFit(xs, close) && xs != []
    ensures SpellingFits(xs[0]) && Apart(xs[0], SpellAll(xs[1..]) + close) && SpellingsFit(xs[1..], close)
    ensures SpellAll(xs) + close == Spell(xs[0]) + (SpellAll(xs[1..]) + close)
  {
    hide SpellingFits, Apart, Spell;
    forall k | 0 <= k < |xs| - 1
      ensures SpellingFits(xs[1..][k]) && Apart(xs[1..][k], SpellAll(xs[1..][k + 1..]) + close)
    {
      assert xs[1..][k] == xs[k + 1] && xs[1..][k + 1..] == xs[k + 2..];
    }
  }

  /** After the last attribute the "/" may have been read. */
  lemma LastSlashed(x: Spelling, rest: seq<Spelling>, close: Bytes)
    requires SpellingsFit(rest, close) && IsClose(close)
    ensures Slashed(x, SpellAll(rest) + close) == 1 ==> rest == [] && close == [SLASH, GT]
  {
    if rest != [] {
      FirstFits(rest, close);
      var key, tail := rest[0].key, SpellAll(rest) + close;
      assert SpellingFits(rest[0]) && key[0] !in KEY_STOPS;
      assert tail[0] == key[0];
    }
  }

  /** At the end only ">" is left of the tag, or all of its close. */
  lemma {:induction false} AttributesRead(s: Bytes, l: Look, p: nat, xs: seq<Spelling>, close: Bytes, saveAttr: bool)
    returns (spans: seq<(Span, Span)>)
    requires Inside(s, l) && !l.err && SpellingsFit(xs, close) && IsClose(close) && At(s, p, SpellAll(xs) + close)
    requires l.end == p || (xs == [] && close == [SLASH, GT] && l.end == p + 1)
    ensures var r := Attributes(s, l, saveAttr);
      && r == l.(key := r.key, val := r.val, end := p + |SpellAll(xs) + close|,
                 attrs := if saveAttr then l.attrs + spans else l.attrs)
      && AllMarked(s, spans, xs)
    decreases |xs|
  {
    hide At, SpellingsFit, IsClose, SpellingFits, Apart, Spell, SpellAll, Attribute1, Marks, Slashed, SpansInside;
    spans := [];
    if xs == [] {
      NothingSpelled();
      assert [] + close == close;
      AllRead(s, l, p, close, saveAttr);
      assert l.attrs + [] == l.attrs;
    } else {
      FirstFits(xs, close);
      var x, tail := xs[0], SpellAll(xs[1..]) + close;
      AtSplit(s, p, Spell(x), tail);
      AttributeRead(s, l, x, tail, saveAttr);
      LastSlashed(x, xs[1..], close);
      var r := Attribute1(s, l, saveAttr).1;
      SlashedIs(x, tail);
      var more := AttributesRead(s, r, p + |Spell(x)|, xs[1..], close, saveAttr);
      spans := [(r.key, r.val)] + more;
      FirstMarked(s, (r.key, r.val), more, xs);
      assert l.attrs + [(r.key, r.val)] + more == l.attrs + spans;
    }
  }

  lemma NothingSpelled()
    ensures SpellAll([]) == []
  {
  }

  lemma SlashedIs(x: Spelling, tail: Bytes)
    ensures Slashed(x, tail) <= 1
  {
  }

  lemma AllRead(s: Bytes, l: Look, p: nat, close: Bytes, saveAttr: bool)
    requires Inside(s, l) && !l.err && IsClose(close) && At(s, p, close)
    requires l.end == p || (close == [SLASH, GT] && l.end == p + 1)
    ensures var r := Attributes(s, l, saveAttr);
      r == l.(key := r.key, val := r.val, end := p + |close|)
  {
    hide At, Attributes;
    if l.end == p {
      CloseRead(s, l, close, saveAttr);
    } else {
      assert close == [SLASH] + [GT];
      AtSplit(s, p, [SLASH], [GT]);
      CloseRead(s, l, [GT], saveAttr);
    }
  }

  // ----- tags -----

  /** A name begins with a letter and has no white space, "/" or ">". */
  ghost predicate NameFits(name: Bytes) {
    name != [] && IsLetter(name[0]) && forall k :: 0 <= k < |name| ==> name[k] !in NAME_STOPS
  }

  /** A tag from its name on. */
  datatype Spelled = Spelled(name: Bytes, gap: Bytes, attrs: seq<Spelling>, close: Bytes)

  function SpellTag(g: Spelled): Bytes {
    g.name + g.gap + (SpellAll(g.attrs) + g.close)
  }

  ghost predicate TagFits(g: Spelled) {
    && NameFits(g.name) && AllSpaces(g.gap) && (g.attrs != [] ==> g.gap != [])
    && SpellingsFit(g.attrs, g.close) && IsClose(g.close)
  }

  lemma TagParts(s: Bytes, p: nat, g: Spelled)
    requires At(s, p, SpellTag(g))
    ensures var q := p + |g.name|;
      && At(s, p, g.name) && At(s, q, g.gap) && At(s, q + |g.gap|, SpellAll(g.attrs) + g.close)
      && |SpellTag(g)| == |g.name| + |g.gap| + |SpellAll(g.attrs) + g.close|
  {
    hide At, SpellAll;
    AtSplit(s, p, g.name + g.gap, SpellAll(g.attrs) + g.close);
    AtSplit(s, p, g.name, g.gap);
  }

  /** Behind the name and white space a key or the end of the tag comes. */
  lemma RestStarts(s: Bytes, p: nat, xs: seq<Spelling>, close: Bytes)
    requires SpellingsFit(xs, close) && IsClose(close) && At(s, p, SpellAll(xs) + close)
    ensures p < |s| && s[p] !in SPACES && (xs == [] ==> s[p] in NAME_STOPS)
  {
    hide At, Apart;
    var tail := SpellAll(xs) + close;
    AtByte(s, p, tail, 0);
    if xs != [] {
      FirstFits(xs, close);
      assert tail[0] == xs[0].key[0];
    }
  }

  lemma NameRead(s: Bytes, l: Look, g: Spelled)
    requires Inside(s, l) && l.start < l.end && !l.err && TagFits(g) && At(s, l.end - 1, SpellTag(g))
    ensures var p := l.end - 1;
      SkipSpace(s, Name(s, l)) == l.(data := Span(p, p + |g.name|), end := p + |g.name| + |g.gap|)
  {
    hide At, Until, SpellingsFit, IsClose, SpellAll, Skip, AllSpaces;
    var p, name := l.end - 1, g.name;
    var q := p + |name|;
    TagParts(s, p, g);
    RestStarts(s, q + |g.gap|, g.attrs, g.close);
    SkipIs(s, q, g.gap);
    assert name == [name[0]] + name[1..];
    AtSplit(s, p, [name[0]], name[1..]);
    if g.gap != [] {
      GapStarts(s, q, g.gap);
    }
    UntilIs(s, l.end, NAME_STOPS, name[1..]);
    NoSpace(s, q + |g.gap|);
  }

  lemma GapStarts(s: Bytes, p: nat, gap: Bytes)
    requires At(s, p, gap) && AllSpaces(gap) && gap != []
    ensures p < |s| && s[p] in SPACES && Skip(s, p + 1) == Skip(s, p)
  {
    AtByte(s, p, gap, 0);
  }

  /** The name and the attributes of a tag are marked where they are spelled. */
  lemma TagRead(s: Bytes, l: Look, g: Spelled, saveAttr: bool) returns (spans: seq<(Span, Span)>)
    requires Inside(s, l) && l.start < l.end && !l.err && TagFits(g) && At(s, l.end - 1, SpellTag(g))
    ensures var r, p := Tag(s, l, saveAttr), l.end - 1;
      && r == l.(key := r.key, val := r.val, data := Span(p, p + |g.name|), end := p + |SpellTag(g)|,
                 attrs := if saveAttr then spans else [])
      && AllMarked(s, spans, g.attrs) && Part(s, r.data) == g.name
  {
    hide At, NameFits, SpellingsFit, IsClose, SpellAll, AllSpaces, Name, SkipSpace, Attributes, AllMarked, Part;
    var p := l.end - 1;
    NameRead(s, l.(attrs := []), g);
    TagParts(s, p, g);
    PartAt(s, p, g.name);
    var q := p + |g.name| + |g.gap|;
    spans := AttributesRead(s, SkipSpace(s, Name(s, l.(attrs := []))), q, g.attrs, g.close, saveAttr);
    assert [] + spans == spans;
  }
}
