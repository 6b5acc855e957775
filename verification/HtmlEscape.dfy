/** escape of html/escape.go, convertNewlines of html/token.go, and the round trip through both decoders. */
module HtmlEscape {
  import opened Int32
  import opened Utf8
  import opened HtmlEntity

  const RETURN: Byte := 0x0D
  const NEWLINE: Byte := 0x0A

  /** The replacement for one of the escaped characters & ' < > " and carriage return. */
  function EscapeOf(c: Byte): Bytes {
    match c
    case 0x26 => [0x26, 0x61, 0x6D, 0x70, 0x3B]
    case 0x27 => [0x26, 0x23, 0x33, 0x39, 0x3B]
    case 0x3C => [0x26, 0x6C, 0x74, 0x3B]
    case 0x3E => [0x26, 0x67, 0x74, 0x3B]
    case 0x22 => [0x26, 0x23, 0x33, 0x34, 0x3B]
    case 0x0D => [0x26, 0x23, 0x31, 0x33, 0x3B]
    case _ => [c]
  }

  predicate IsEscaped(c: Byte) {
    c == 0x26 || c == 0x27 || c == 0x3C || c == 0x3E || c == 0x22 || c == 0x0D
  }

  function Escaped(s: Bytes): Bytes {
    if s == [] then [] else EscapeOf(s[0]) + Escaped(s[1..])
  }

  lemma {:induction false} EscapedConcat(a: Bytes, b: Bytes)
    ensures Escaped(a + b) == Escaped(a) + Escaped(b)
  {
    hide EscapeOf;
    if a == [] {
      assert a + b == b;
    } else {
      EscapedConcat(a[1..], b);
      assert (a + b)[1..] == a[1..] + b;
    }
  }

  lemma {:induction false} EscapedPlain(a: Bytes)
    requires forall k :: 0 <= k < |a| ==> !IsEscaped(a[k])
    ensures Escaped(a) == a
  {
    if a != [] {
      EscapedPlain(a[1..]);
      assert !IsEscaped(a[0]);
      assert [a[0]] + a[1..] == a;
    }
  }

  /** strings.IndexAny(s, escapedChars). */
  method IndexEscaped(s: Bytes) returns (i: int)
    ensures -1 <= i < |s|
    ensures i >= 0 ==> IsEscaped(s[i]) && forall k :: 0 <= k < i ==> !IsEscaped(s[k])
    ensures i < 0 ==> forall k :: 0 <= k < |s| ==> !IsEscaped(s[k])
  {
    i := 0;
    while i < |s|
      invariant 0 <= i <= |s|
      invariant forall k :: 0 <= k < i ==> !IsEscaped(s[k])
    {
      if IsEscaped(s[i]) {
        return;
      }
      i := i + 1;
    }
    i := -1;
  }

  /** escape: plain stretches are written as they are, each special character as its replacement. */
  method Escape(s0: Bytes) returns (w: Bytes)
    ensures w == Escaped(s0)
  {
    hide Escaped, IsEscaped;
    var s := s0;
    w := [];
    var i := IndexEscaped(s);
    while i != -1
      invariant -1 <= i < |s|
      invariant i >= 0 ==> IsEscaped(s[i]) && forall k :: 0 <= k < i ==> !IsEscaped(s[k])
      invariant i < 0 ==> forall k :: 0 <= k < |s| ==> !IsEscaped(s[k])
      invariant w + Escaped(s) == Escaped(s0)
      decreases |s|
    {
      EscapedSplit(s, i);
      w := w + s[..i];
      var esc := EscapeOf(s[i]);
      s := s[i + 1..];
      w := w + esc;
      i := IndexEscaped(s);
    }
    EscapedPlain(s);
    w := w + s;
  }

  lemma EscapedSplit(s: Bytes, i: nat)
    requires i < |s| && forall k :: 0 <= k < i ==> !IsEscaped(s[k])
    ensures Escaped(s) == s[..i] + EscapeOf(s[i]) + Escaped(s[i + 1..])
  {
    hide EscapeOf, IsEscaped;
    var a, b := s[..i], s[i..];
    EscapedConcat(a, b);
    EscapedPlain(a);
    assert s == a + b && b[1..] == s[i + 1..] && b[0] == s[i];
  }

  // ----- newlines -----

  /** "\\r\\n" and "\\r" both become "\\n". */
  function Newlines(s: Bytes): Bytes {
    if s == [] then []
    else if s[0] != RETURN then [s[0]] + Newlines(s[1..])
    else [NEWLINE] + Newlines(if |s| > 1 && s[1] == NEWLINE then s[2..] else s[1..])
  }

  lemma {:induction false} NewlinesPlain(s: Bytes)
    requires RETURN !in s
    ensures Newlines(s) == s
  {
    if s != [] {
      assert s[0] in s;
      assert forall x :: x in s[1..] ==> x in s;
      NewlinesPlain(s[1..]);
      assert [s[0]] + s[1..] == s;
    }
  }

  /** No carriage return is left, so converting twice changes nothing, and the result is no longer. */
  lemma {:induction false} NewlinesClean(s: Bytes)
    ensures RETURN !in Newlines(s) && |Newlines(s)| <= |s|
    ensures Newlines(Newlines(s)) == Newlines(s)
  {
    if s != [] {
      if s[0] == RETURN && |s| > 1 && s[1] == NEWLINE {
        NewlinesClean(s[2..]);
      } else {
        NewlinesClean(s[1..]);
      }
      NewlinesPlain(Newlines(s));
    }
  }

  /** The second loop of convertNewlines, which moves bytes down once something has been dropped. */
  method MoveDown(s: array<Byte>, i: nat) returns (dst: nat)
    requires i < s.Length
    modifies s
    ensures dst <= s.Length
    ensures s[..dst] == old(s[..i]) + Newlines(old(s[i + 1..]))
  {
    hide Newlines;
    NewlinesNothing();
    ghost var want := s[..i] + Newlines(s[i + 1..]);
    var src := i + 1;
    dst := i;
    while src < s.Length
      invariant i <= dst < src <= s.Length
      invariant s[..dst] + Newlines(s[src..]) == want
    {
      ghost var rest, done := s[src..], s[..dst];
      NewlinesStep(rest);
      if s[src] == RETURN {
        if src + 1 < s.Length && s[src + 1] == NEWLINE {
          src := src + 1;
        }
        s[dst] := NEWLINE;
      } else {
        s[dst] := s[src];
      }
      src := src + 1;
      dst := dst + 1;
      assert s[..dst] == done + [First(rest)];
      assert s[src..] == rest[Taken(rest)..];
    }
    assert s[src..] == [];
  }

  /** What the start of a text becomes, and how much of it that takes. */
  function First(s: Bytes): Byte
    requires s != []
  {
    if s[0] == RETURN then NEWLINE else s[0]
  }

  function Taken(s: Bytes): nat
    requires s != []
  {
    if s[0] == RETURN && |s| > 1 && s[1] == NEWLINE then 2 else 1
  }

  lemma NewlinesNothing()
    ensures Newlines([]) == []
  {
  }

  lemma NewlinesStep(s: Bytes)
    requires s != []
    ensures Newlines(s) == [First(s)] + Newlines(s[Taken(s)..])
  {
  }

  /** convertNewlines, in place. */
  method ConvertNewlines(s: array<Byte>) returns (n: nat)
    modifies s
    ensures n <= s.Length && s[..n] == Newlines(old(s[..]))
  {
    hide Newlines;
    NewlinesNothing();
    ghost var want := Newlines(s[..]);
    var i := 0;
    assert s[..0] == [] && s[0..] == s[..];
    while i < s.Length
      invariant 0 <= i <= s.Length
      invariant s[..i] + Newlines(s[i..]) == want
    {
      ghost var rest, done := s[i..], s[..i];
      NewlinesStep(rest);
      if s[i] != RETURN {
        assert s[..i + 1] == done + [rest[0]] && s[i + 1..] == rest[1..];
        i := i + 1;
        continue;
      }
      var src := i + 1;
      if src >= s.Length || s[src] != NEWLINE {
        s[i] := NEWLINE;
        assert s[..i + 1] == done + [NEWLINE] && s[i + 1..] == rest[1..];
        i := i + 1;
        continue;
      }
      ghost var after := s[i + 1..];
      assert after[1..] == rest[2..] && after[0] == NEWLINE;
      NewlinesStep(after);
      n := MoveDown(s, i);
      return;
    }
    n := s.Length;
    assert s[i..] == [] && s[..n] == s[..];
  }

  // ----- the round trip -----

  const AMP: Bytes := [0x61, 0x6D, 0x70, 0x3B]
  const LT: Bytes := [0x6C, 0x74, 0x3B]
  const GT: Bytes := [0x67, 0x74, 0x3B]

  /** The three names that escape relies on, as html/entity.go lists them. */
  ghost predicate HasBasics(t: Entities) {
    One(t, AMP) == 0x26 && One(t, LT) == 0x3C && One(t, GT) == 0x3E
  }

  /** A name of three or four bytes, its last a semicolon, decodes to its value whatever follows. */
  lemma NamedDecodes(t: Entities, name: Bytes, rest: Bytes, attribute: bool)
    requires 2 <= |name| <= 4 && name[|name| - 1] == SEMICOLON && One(t, name) != 0
    requires forall k :: 0 <= k < |name| - 1 ==> Alphanumeric(name[k])
    ensures Entity(t, [AMPERSAND] + name + rest, attribute) == Expansion(Encode(One(t, name)), |name| + 1)
  {
    var s := [AMPERSAND] + name + rest;
    assert forall k :: 1 <= k < |name| ==> s[k] == name[k - 1];
    assert s[|name|] == SEMICOLON;
    NameEnd(s, 1, |name|);
    assert s[1..|name| + 1] == name;
  }

  lemma {:induction false} NameEnd(s: Bytes, i: nat, end: nat)
    requires i <= end < |s| && s[end] == SEMICOLON
    requires forall k :: i <= k < end ==> Alphanumeric(s[k])
    ensures ScanName(s, i) == end + 1
    decreases end - i
  {
    if i < end {
      NameEnd(s, i + 1, end);
    }
  }

  /** What an escaped character is replaced by: "&" and a name, or "&#", two digits and a semicolon. */
  lemma EscapeForms(c: Byte)
    requires IsEscaped(c)
    ensures c == 0x26 ==> EscapeOf(c) == [AMPERSAND] + AMP
    ensures c == 0x3C ==> EscapeOf(c) == [AMPERSAND] + LT
    ensures c == 0x3E ==> EscapeOf(c) == [AMPERSAND] + GT
    ensures c in {0x27, 0x22, 0x0D} ==>
      var a, b := EscapeOf(c)[2], EscapeOf(c)[3];
      && EscapeOf(c) == [AMPERSAND, HASH] + [a, b] + [SEMICOLON]
      && Digit(a, false) >= 0 && Digit(b, false) >= 0 && c == 10 * Digit(a, false) + Digit(b, false)
    ensures EscapeOf(c)[0] == AMPERSAND && c in {0x26, 0x3C, 0x3E, 0x27, 0x22, 0x0D}
  {
  }

  lemma EscapeDecodes(t: Entities, c: Byte, rest: Bytes, attribute: bool)
    requires HasBasics(t) && IsEscaped(c)
    ensures EscapeOf(c)[0] == AMPERSAND
    ensures Entity(t, EscapeOf(c) + rest, attribute) == Expansion([c], |EscapeOf(c)|)
  {
    hide Entity, EscapeOf, Digit, IsEscaped;
    EscapeForms(c);
    if c == 0x26 {
      NamedDecodes(t, AMP, rest, attribute);
    } else if c == 0x3C {
      NamedDecodes(t, LT, rest, attribute);
    } else if c == 0x3E {
      NamedDecodes(t, GT, rest, attribute);
    } else {
      NumericDecodes(t, c, EscapeOf(c)[2], EscapeOf(c)[3], rest, attribute);
    }
  }

  lemma NumericDecodes(t: Entities, c: Byte, a: Byte, b: Byte, rest: Bytes, attribute: bool)
    requires Digit(a, false) >= 0 && Digit(b, false) >= 0 && c == 10 * Digit(a, false) + Digit(b, false) && 0 < c < 0x80
    ensures Entity(t, [AMPERSAND, HASH] + [a, b] + [SEMICOLON] + rest, attribute) == Expansion([c], 5)
  {
    hide Entity, Value;
    TwoDigits(a, b);
    NumericReference(t, false, 0, [a, b], [SEMICOLON] + rest, attribute);
    assert Reference(false, 0, [a, b]) + ([SEMICOLON] + rest)
        == [AMPERSAND, HASH] + [a, b] + [SEMICOLON] + rest;
    assert Wrap(c) == c;
  }

  /** Decoding undoes escaping, in text and in attribute values. */
  lemma {:induction false} UnescapeEscape(t: Entities, s: Bytes, attribute: bool)
    requires Compact(t) && HasBasics(t)
    ensures Unescaped(t, Escaped(s), attribute) == s
  {
    hide Entity, Compact, HasBasics;
    if s == [] {
      UnescapedNothing(t, attribute);
    } else {
      var rest := Escaped(s[1..]);
      UnescapeEscape(t, s[1..], attribute);
      if IsEscaped(s[0]) {
        EscapeDecodes(t, s[0], rest, attribute);
        UnescapedEntity(t, EscapeOf(s[0]) + rest, attribute);
        assert (EscapeOf(s[0]) + rest)[|EscapeOf(s[0])|..] == rest;
      } else {
        UnescapedPlain(t, [s[0]] + rest, attribute);
      }
      assert [s[0]] + s[1..] == s;
    }
  }

  lemma TwoDigits(a: Byte, b: Byte)
    requires Digit(a, false) >= 0 && Digit(b, false) >= 0
    ensures Value([a, b], false, 0) == 10 * Digit(a, false) + Digit(b, false)
  {
    var ds := [a, b];
    assert ds[0..] == ds;
    ValueAt(ds, 0, 0);
    ValueAt(ds, 1, Digit(a, false));
  }

  lemma {:induction false} EscapedHasNoReturn(s: Bytes)
    ensures RETURN !in Escaped(s)
  {
    if s != [] {
      EscapedHasNoReturn(s[1..]);
    }
  }

  /** What a tokenizer reads back from escaped text or an escaped attribute value is the original, byte for byte. */
  lemma TokenRoundTrip(t: Entities, s: Bytes, attribute: bool)
    requires Compact(t) && HasBasics(t)
    ensures Unescaped(t, Newlines(Escaped(s)), attribute) == s
  {
    EscapedHasNoReturn(s);
    NewlinesPlain(Escaped(s));
    UnescapeEscape(t, s, attribute);
  }

  method EscapeString(s: Bytes) returns (r: Bytes)
    ensures r == Escaped(s)
  {
    var i := IndexEscaped(s);
    if i == -1 {
      EscapedPlain(s);
      return s;
    }
    r := Escape(s);
  }

  method UnescapeString(t: Entities, s: Bytes) returns (r: Bytes)
    requires Compact(t)
    ensures r == Unescaped(t, s, false)
  {
    if AMPERSAND in s {
      var b := new Byte[|s|](i requires 0 <= i < |s| => s[i]);
      assert b[..] == s;
      var n := Unescape(t, b, false);
      return b[..n];
    }
    UnescapedWithoutEntities(t, s);
    r := s;
  }

  lemma {:induction false} UnescapedWithoutEntities(t: Entities, s: Bytes)
    requires Compact(t) && AMPERSAND !in s
    ensures Unescaped(t, s, false) == s
  {
    hide Entity;
    if s == [] {
    } else {
      assert s[0] in s && forall x :: x in s[1..] ==> x in s;
      UnescapedWithoutEntities(t, s[1..]);
      UnescapedPlain(t, s, false);
      assert [s[0]] + s[1..] == s;
    }
  }

  /** A carriage return that is not escaped does not survive: it is read as a newline. */
  lemma BareReturnIsLost(t: Entities, attribute: bool)
    requires Compact(t)
    ensures Unescaped(t, Newlines([RETURN]), attribute) == [NEWLINE]
  {
    assert Newlines([RETURN]) == [NEWLINE];
    UnescapedPlain(t, [NEWLINE], attribute);
    UnescapedNothing(t, attribute);
  }

  // ----- numeric references of any length -----

  /** The number that digits write, without a bound. */
  function Value(ds: Bytes, hex: bool, x: nat): nat
    requires forall k :: 0 <= k < |ds| ==> Digit(ds[k], hex) >= 0
  {
    if ds == [] then x else Value(ds[1..], hex, Base(hex) * x + Digit(ds[0], hex))
  }

  /** Where the digits end: at the end of the input, or in front of a byte that is no digit. */
  predicate DigitsEnd(tail: Bytes, hex: bool) {
    tail == [] || Digit(tail[0], hex) < 0
  }

  /** How many bytes of what stands behind the digits belong to the reference: its semicolon, if there is one. */
  function Closing(tail: Bytes): nat {
    if tail != [] && tail[0] == SEMICOLON then 1 else 0
  }

  lemma {:induction false} ScanIsModulo(s: Bytes, i: nat, ds: Bytes, hex: bool, x: nat)
    requires forall k :: 0 <= k < |ds| ==> Digit(ds[k], hex) >= 0
    requires i + |ds| <= |s| && s[i..i + |ds|] == ds && DigitsEnd(s[i + |ds|..], hex)
    ensures ScanNumber(s, i, hex, Wrap(x)) == (Wrap(Value(ds, hex, x)), i + |ds| + Closing(s[i + |ds|..]))
    decreases |ds|
  {
    hide Wrap;
    if ds != [] {
      assert s[i] == ds[0];
      WrapProduct(Base(hex), x, Digit(ds[0], hex));
      assert s[i + 1..i + 1 + |ds[1..]|] == ds[1..];
      ScanIsModulo(s, i + 1, ds[1..], hex, Base(hex) * x + Digit(ds[0], hex));
    }
  }

  lemma WrapProduct(base: int, x: int, d: int)
    requires base == 10 || base == 16
    ensures Wrap(base * Wrap(x) + d) == Wrap(base * x + d)
  {
    var k := (Wrap(x) - x) / 0x1_0000_0000;
    assert Wrap(x) == x + k * 0x1_0000_0000;
    assert base * Wrap(x) + d == base * x + d + (base * k) * 0x1_0000_0000;
    WrapShift(base * x + d, base * k);
  }

  lemma WrapShift(a: int, k: int)
    ensures Wrap(a + k * 0x1_0000_0000) == Wrap(a)
  {
  }

  /** "&#" and the digits of a decimal reference, or "&#x" and those of a hexadecimal one; x may be a capital. */
  function Reference(hex: bool, x: Byte, ds: Bytes): Bytes {
    [AMPERSAND, HASH] + (if hex then [x] else []) + ds
  }

  /** The bytes of a reference with its semicolon, if it has one. */
  function Extent(hex: bool, ds: Bytes, tail: Bytes): nat {
    (if hex then 3 else 2) + |ds| + Closing(tail)
  }

  /** x marks hexadecimal digits, and what stands behind "&#" does not mark decimal ones as such. */
  predicate IsReference(hex: bool, x: Byte, ds: Bytes, tail: Bytes) {
    && (forall k :: 0 <= k < |ds| ==> Digit(ds[k], hex) >= 0) && DigitsEnd(tail, hex)
    && if hex then x == 0x78 || x == 0x58 else ds == [] && tail != [] ==> tail[0] != 0x78 && tail[0] != 0x58
  }

  /**
   * Every numeric reference, closed or not: it stands for its value modulo 2^32 as an int32. What takes up no more than
   * three bytes is left as it is, a decimal digit without a semicolon among it; "&#x;" is longer than that.
   */
  lemma NumericReference(t: Entities, hex: bool, x: Byte, ds: Bytes, tail: Bytes, attribute: bool)
    requires IsReference(hex, x, ds, tail)
    ensures Entity(t, Reference(hex, x, ds) + tail, attribute) ==
      if Extent(hex, ds, tail) <= 3 then Expansion([AMPERSAND], 1)
      else Expansion(Encode(Adjusted(Wrap(Value(ds, hex, 0)))), Extent(hex, ds, tail))
  {
    hide Entity, Wrap, Encode, Adjusted, Value, ScanNumber;
    var s, at := Reference(hex, x, ds) + tail, if hex then 3 else 2;
    assert s[at..at + |ds|] == ds && s[at + |ds|..] == tail;
    assert !hex && ds != [] ==> s[2] == ds[0];
    ScanIsModulo(s, at, ds, hex, 0);
    WrapZero();
    NumericIs(t, s, attribute, hex, Wrap(Value(ds, hex, 0)), Extent(hex, ds, tail));
  }

  /** Values that are decoded to what they stand for, although an int32 may not hold them. */
  predicate Survives(v: nat) {
    var m := v % 0x1_0000_0000;
    v < 0x1_0000_0000 || m == 0 || m > MAX_RUNE || 0xD800 <= m <= 0xDFFF || m == RUNE_ERROR
  }

  lemma ValueSurvives(v: nat)
    ensures Encode(Adjusted(Wrap(v))) == Encode(Adjusted(v)) <==> Survives(v)
  {
    hide Encode, Adjusted, Wrap;
    var m := v % 0x1_0000_0000;
    WrapIs(v, m);
    AdjustedIs(Wrap(v));
    AdjustedIs(v);
    OnlyRuneError(Adjusted(Wrap(v)));
    OnlyRuneError(Adjusted(v));
  }

  lemma WrapIs(v: nat, m: nat)
    requires m == v % 0x1_0000_0000
    ensures Wrap(v) == if m <= MAX_INT32 then m else m - 0x1_0000_0000
  {
  }

  /** Which numbers are adjusted to the replacement character, or to something that is written like it. */
  lemma AdjustedIs(x: int)
    ensures
      var r := Adjusted(x);
      (r < 0 || r > MAX_RUNE || 0xD800 <= r <= 0xDFFF || r == RUNE_ERROR)
      <==> x <= 0 || x > MAX_RUNE || 0xD800 <= x <= 0xDFFF || x == RUNE_ERROR
    ensures x < 0 ==> Adjusted(x) == x
  {
    if 0x80 <= x <= 0x9F {
      assert REPLACEMENTS[x - 0x80] < 0x3000;
    }
  }

  lemma OnlyRuneError(r: int)
    ensures Encode(r) == [0xEF, 0xBF, 0xBD] <==> r < 0 || r > MAX_RUNE || 0xD800 <= r <= 0xDFFF || r == RUNE_ERROR
  {
    if 0x800 <= r <= 0xFFFF && Encode(r) == [0xEF, 0xBF, 0xBD] {
      assert r == r / 4096 * 4096 + r / 64 % 64 * 64 + r % 64;
    }
  }

  /** A numeric reference decodes to the code point that its digits write exactly if it is not too short and its value
      survives; every value below 2^32 does. */
  lemma ReferenceIsItsValue(t: Entities, hex: bool, x: Byte, ds: Bytes, tail: Bytes, attribute: bool)
    requires IsReference(hex, x, ds, tail)
    ensures
      Entity(t, Reference(hex, x, ds) + tail, attribute)
        == Expansion(Encode(Adjusted(Value(ds, hex, 0))), Extent(hex, ds, tail))
      <==> Extent(hex, ds, tail) > 3 && Survives(Value(ds, hex, 0))
  {
    hide Entity, Wrap, Encode, Adjusted, Value, Survives;
    NumericReference(t, hex, x, ds, tail, attribute);
    ValueSurvives(Value(ds, hex, 0));
  }

  /** "&#x;" without any digits is read as the replacement character. */
  lemma NoDigits(t: Entities, x: Byte, rest: Bytes, attribute: bool)
    requires x == 0x78 || x == 0x58
    ensures Entity(t, [AMPERSAND, HASH, x, SEMICOLON] + rest, attribute) == Expansion(Encode(RUNE_ERROR), 4)
  {
    hide Entity, Wrap;
    var tail := [SEMICOLON] + rest;
    NumericReference(t, true, x, [], tail, attribute);
    WrapZero();
    assert Reference(true, x, []) + tail == [AMPERSAND, HASH, x, SEMICOLON] + rest;
  }

  lemma WrapZero()
    ensures Wrap(0) == 0
  {
  }

  lemma NumericIs(t: Entities, s: Bytes, attribute: bool, hex: bool, x: int, i: nat)
    requires |s| >= 2 && s[0] == AMPERSAND && s[1] == HASH && i <= |s|
    requires |s| > 2 ==> (hex <==> s[2] == 0x78 || s[2] == 0x58)
    requires hex ==> |s| > 2
    requires ScanNumber(s, if hex then 3 else 2, hex, 0) == (x, i)
    ensures Entity(t, s, attribute) == if i <= 3 then Expansion([AMPERSAND], 1) else Expansion(Encode(Adjusted(x)), i)
  {
    hide Encode, Adjusted, ScanNumber, Named;
  }

  const LONG_DIGITS: Bytes := [0x34, 0x32, 0x39, 0x34, 0x39, 0x36, 0x37, 0x33, 0x36, 0x31]

  /** "&#4294967361;" is read as "A": the value wraps around to 65. */
  lemma LongReferenceWraps(t: Entities, rest: Bytes, attribute: bool)
    ensures Entity(t, [AMPERSAND, HASH] + LONG_DIGITS + [SEMICOLON] + rest, attribute) == Expansion([0x41], 13)
  {
    hide Entity, Value, Wrap, Encode, Adjusted;
    LongValue();
    NumericReference(t, false, 0, LONG_DIGITS, [SEMICOLON] + rest, attribute);
    assert Reference(false, 0, LONG_DIGITS) + ([SEMICOLON] + rest)
        == [AMPERSAND, HASH] + LONG_DIGITS + [SEMICOLON] + rest;
    LongRune();
  }

  lemma LongRune()
    ensures Encode(Adjusted(Wrap(4294967361))) == [0x41]
  {
    assert Wrap(4294967361) == 65;
  }

  lemma LongValue()
    ensures forall j :: 0 <= j < |LONG_DIGITS| ==> Digit(LONG_DIGITS[j], false) >= 0
    ensures Value(LONG_DIGITS, false, 0) == 4294967361
  {
    var ds := LONG_DIGITS;
    assert ds[0..] == ds && ds[10..] == [];
    ValueAt(ds, 0, 0);
    ValueAt(ds, 1, 4);
    ValueAt(ds, 2, 42);
    ValueAt(ds, 3, 429);
    ValueAt(ds, 4, 4294);
    ValueAt(ds, 5, 42949);
    ValueAt(ds, 6, 429496);
    ValueAt(ds, 7, 4294967);
    ValueAt(ds, 8, 42949673);
    ValueAt(ds, 9, 429496736);
  }

  lemma ValueAt(ds: Bytes, k: nat, x: nat)
    requires k < |ds| && forall j :: 0 <= j < |ds| ==> Digit(ds[j], false) >= 0
    ensures Value(ds[k..], false, x) == Value(ds[k + 1..], false, 10 * x + Digit(ds[k], false))
  {
    assert ds[k..][1..] == ds[k + 1..];
  }
}
