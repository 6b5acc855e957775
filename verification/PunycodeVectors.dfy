/** The digits of punycode as characters, and what is written for particular labels. */
module PunycodeVectors {
  import opened Int32
  import opened Options
  import opened Punycode
  import opened PunycodeSpec
  import opened PunycodeDecode
  import opened PunycodeEncode
  import opened PunycodeRoundTrip
  import opened PunycodeOverflow
  import opened PunycodeBounds

  // ----- the digits -----

  const ALPHABET := "abcdefghijklmnopqrstuvwxyz0123456789"

  /** Each digit is the character at its place, and nothing but that character and its capital is read as the digit. */
  lemma AlphabetIs(d: int, x: Rune)
    requires 0 <= d < BASE
    ensures |ALPHABET| == BASE && EncodeDigit(d) == ALPHABET[d] as int
    ensures DecodeDigit(x) == Some(d) <==> Small(x) == ALPHABET[d] as int
  {
    assert d < 26 ==> ALPHABET[d] as int == 'a' as int + d;
    assert d >= 26 ==> ALPHABET[d] as int == '0' as int + (d - 26);
  }

  /** A capital letter's small one; other characters as they are. */
  function Small(x: Rune): (y: Rune)
  {
    if 'A' as int <= x <= 'Z' as int then x + ('a' as int - 'A' as int) else x
  }

  ghost predicate SameSmall(a: Text, b: Text) {
    |a| == |b| && forall k :: 0 <= k < |a| ==> Small(a[k]) == Small(b[k])
  }

  lemma DigitIgnoresCase(x: Rune, y: Rune)
    requires Small(x) == Small(y)
    ensures DecodeDigit(x) == DecodeDigit(y) && (x == HYPHEN <==> y == HYPHEN)
  {
  }

  lemma {:induction false} ReadIgnoresCase(a: Text, b: Text, i: nat, w: nat, k: int, bias: int)
    requires SameSmall(a, b)
    ensures var r, q := ReadInteger(a, i, w, k, bias), ReadInteger(b, i, w, k, bias);
      if r.BadInteger? then q.BadInteger? else q.Read? && q.i == r.i && SameSmall(r.rest, q.rest)
    decreases |a|
  {
    hide DecodeDigit, Threshold, Small, ReadInteger;
    if a == [] {
      NothingRead(i, w, k, bias);
    } else {
      DigitIgnoresCase(a[0], b[0]);
      NoDigitRead(a, i, w, k, bias);
      NoDigitRead(b, i, w, k, bias);
      if DecodeDigit(a[0]).Some? {
        var digit := DecodeDigit(a[0]).value;
        ReadStep(a, digit, i, w, k, bias);
        ReadStep(b, digit, i, w, k, bias);
        if i + digit * w >= 0 && w * (BASE - Threshold(k, bias)) >= 0 {
          ReadIgnoresCase(a[1..], b[1..], i + digit * w, w * (BASE - Threshold(k, bias)), k + BASE, bias);
        }
      }
    }
  }

  lemma NothingRead(i: nat, w: nat, k: int, bias: int)
    ensures ReadInteger([], i, w, k, bias) == BadInteger
  {
  }

  lemma NoDigitRead(a: Text, i: nat, w: nat, k: int, bias: int)
    requires a != []
    ensures DecodeDigit(a[0]).None? ==> ReadInteger(a, i, w, k, bias) == BadInteger
  {
  }

  lemma {:induction false} InsertionsIgnoreCase(a: Text, b: Text, i: nat, n: int, bias: int, out: seq<int>)
    requires SameSmall(a, b) && i <= MAX_INT32
    ensures Insertions(a, i, n, bias, out) == Insertions(b, i, n, bias, out)
    decreases |a|
  {
    hide ReadInteger, Adapt, Wrap, Insert, SameSmall;
    if a != [] {
      assert |a| == |b| by {
        SameLength(a, b);
      }
      ReadIgnoresCase(a, b, i, 1, BASE, bias);
      var r, q := ReadInteger(a, i, 1, BASE, bias), ReadInteger(b, i, 1, BASE, bias);
      if r.Read? {
        var x := |out| + 1;
        var n1 := Wrap(n + r.i / x);
        if n1 <= MAX_RUNE && |out| < MAX_OUTPUT {
          SplitIndex(r.i, x);
          InsertionsIgnoreCase(r.rest, q.rest, r.i % x + 1, n1, Adapt(r.i - i, x, i == 0), Insert(out, r.i % x, n1));
        }
      }
    } else {
      SameLength(a, b);
    }
  }

  lemma SameLength(a: Text, b: Text)
    requires SameSmall(a, b)
    ensures |a| == |b|
  {
  }

  lemma {:induction false} SameHyphens(a: Text, b: Text)
    requires SameSmall(a, b)
    ensures AfterLastHyphen(a) == AfterLastHyphen(b)
  {
    hide Small;
    if a != [] {
      var k := |a| - 1;
      DigitIgnoresCase(a[k], b[k]);
      if a[k] != HYPHEN {
        SameHyphens(a[..k], b[..k]);
      }
    }
  }

  /** Behind the last hyphen capitals are read like small letters. */
  lemma DecodedIgnoresCase(a: Text, b: Text)
    requires SameSmall(a, b) && a[..AfterLastHyphen(a)] == b[..AfterLastHyphen(a)]
    ensures Decoded(a) == Decoded(b)
  {
    hide Insertions, AfterLastHyphen, Small;
    SameHyphens(a, b);
    var pos := AfterLastHyphen(a);
    if a != [] && pos != 1 && pos != |a| {
      assert pos > 0 ==> a[..pos - 1] == a[..pos][..pos - 1] && b[..pos - 1] == b[..pos][..pos - 1];
      InsertionsIgnoreCase(a[pos..], b[pos..], 0, INITIAL_N, INITIAL_BIAS, if pos == 0 then [] else a[..pos - 1]);
    } else if a != [] && pos == |a| {
      assert a[..pos - 1] == a[..pos][..pos - 1] && b[..pos - 1] == b[..pos][..pos - 1];
    }
  }

  // ----- labels, step by step -----

  /** The characters of a string. */
  function Chars(s: string): (t: Text)
    ensures |t| == |s| && forall k :: 0 <= k < |s| ==> t[k] == s[k] as int
  {
    seq(|s|, k requires 0 <= k < |s| => s[k] as int)
  }

  /** How many of the first j characters are at most n. */
  function AtMost(s: Text, n: int, j: nat): nat
    requires j <= |s|
  {
    if j == 0 then 0 else AtMost(s, n, j - 1) + if s[j - 1] <= n then 1 else 0
  }

  lemma {:induction false} RankIsAtMost(s: Text, n: int, j: nat)
    requires j <= |s|
    ensures Rank(s, n, j) == AtMost(s, n, j)
  {
    hide UpTo;
    if j == 0 {
      SeenAtEnds(s, n);
    } else {
      RankIsAtMost(s, n, j - 1);
      SeenStep(s, n, j - 1);
    }
  }

  lemma {:induction false} SeenSkipsTo(s: Text, n: int, j: nat, m: nat)
    requires j <= m <= |s| && forall k :: j <= k < m ==> s[k] != n
    ensures Seen(s, n, m) == Seen(s, n, j)
    decreases m - j
  {
    hide Seen;
    if j < m {
      SeenStep(s, n, j);
      SeenSkipsTo(s, n, j + 1, m);
    }
  }

  lemma {:induction false} SeenSkips(s: Text, n: int, m: int)
    requires n <= m && forall k :: 0 <= k < |s| ==> !(n <= s[k] < m)
    ensures Seen(s, m, 0) == Seen(s, n, 0)
    decreases m - n
  {
    hide Seen;
    if n < m {
      SeenSkipsTo(s, n, 0, |s|);
      SeenAtEnds(s, n);
      SeenSkips(s, n + 1, m);
    }
  }

  /** No character is left to be inserted between two cursors. */
  predicate Free(s: Text, n: int, j: nat, m: int, j1: nat)
    requires j <= |s| && j1 <= |s|
  {
    if n == m then j <= j1 && forall k :: j <= k < j1 ==> s[k] != n
    else
      && n < m && (forall k :: j <= k < |s| ==> s[k] != n) && (forall k :: 0 <= k < |s| ==> !(n < s[k] < m))
      && forall k :: 0 <= k < j1 ==> s[k] != m
  }

  lemma NothingBetween(s: Text, n: int, j: nat, n0: int, i0: nat, bias: int, m: int, j1: nat)
    requires Behind(s, n, j, n0, i0) && j1 <= |s| && m <= MAX_RUNE && Free(s, n, j, m, j1)
    ensures Behind(s, m, j1, n0, i0) && |Seen(s, m, j1)| == |Seen(s, n, j)|
    ensures Digits(s, n, j, n0, i0, bias) == Digits(s, m, j1, n0, i0, bias)
  {
    hide Digits, Seen, Fits, Coded;
    if n == m {
      SkipsTo(s, n, j, j1, n0, i0, bias);
      SeenSkipsTo(s, n, j, j1);
    } else {
      SkipsTo(s, n, j, |s|, n0, i0, bias);
      SeenSkipsTo(s, n, j, |s|);
      NextCharacter(s, n, n0, i0, bias);
      SeenAtEnds(s, n);
      Skips(s, n + 1, m, n0, i0, bias);
      SeenSkips(s, n + 1, m);
      SkipsTo(s, m, 0, j1, n0, i0, bias);
      SeenSkipsTo(s, m, 0, j1);
    }
  }

  /** A cursor of the walk with everything that is written from there on. */
  ghost predicate From(s: Text, n: int, j: nat, n0: int, i0: nat, bias: int, h: nat, digits: Text) {
    && Behind(s, n, j, n0, i0) && h == |Seen(s, n, j)| + 1 && digits == Digits(s, n, j, n0, i0, bias)
  }

  /** The next character is written, as the number of states since the last one. */
  lemma Writes(s: Text, n: int, j: nat, n0: int, i0: nat, bias: int, h: nat, digits: Text, m: int, j1: nat, rank: nat,
               delta: int)
    returns (rest: Text)
    requires From(s, n, j, n0, i0, bias, h, digits) && j1 < |s| && s[j1] == m && m <= MAX_RUNE
    requires Free(s, n, j, m, j1)
    requires rank == AtMost(s, m, j1) && delta == (m - n0) * h + rank - i0
    ensures delta >= 0 && digits == VarInt(delta, BASE, bias) + rest
    ensures From(s, m, j1 + 1, m, rank + 1, Adapt(delta, h, i0 == 0), h + 1, rest)
  {
    hide VarInt, Adapt, Free, Seen;
    NothingBetween(s, n, j, n0, i0, bias, m, j1);
    RankIsAtMost(s, m, j1);
    SeenStep(s, m, j1);
    BehindNextIndex(s, m, j1, n0, i0);
    DeltaNonNegative(s, m, j1, n0, i0);
    rest := Digits(s, m, j1 + 1, m, rank + 1, Adapt(delta, h, i0 == 0));
  }

  lemma WritesNoMore(s: Text, n: int, j: nat, n0: int, i0: nat, bias: int, h: nat, digits: Text)
    requires From(s, n, j, n0, i0, bias, h, digits) && n <= MAX_RUNE && Free(s, n, j, n, |s|)
    requires forall k :: 0 <= k < |s| ==> s[k] <= n
    ensures digits == []
  {
    hide Digits, Seen, Behind, Fits, Coded;
    SkipsTo(s, n, j, |s|, n0, i0, bias);
    NextCharacter(s, n, n0, i0, bias);
    if n < MAX_RUNE {
      Skips(s, n + 1, MAX_RUNE, n0, i0, bias);
      SkipsTo(s, MAX_RUNE, 0, |s|, n0, i0, bias);
      NextCharacter(s, MAX_RUNE, n0, i0, bias);
    }
    PastTheEnd(s, n0, i0, bias);
  }

  lemma PastTheEnd(s: Text, n0: int, i0: nat, bias: int)
    requires Behind(s, MAX_RUNE + 1, 0, n0, i0)
    ensures Digits(s, MAX_RUNE + 1, 0, n0, i0, bias) == []
  {
  }

  /** Where the walk starts, and what is written of a short label. */
  lemma Starts(s: Text, basic: Text) returns (digits: Text)
    requires |s| <= MAX_EXACT && basic == Basic(s)
    ensures From(s, INITIAL_N, 0, INITIAL_N, 0, INITIAL_BIAS, |basic| + 1, digits)
    ensures CodedLabel(s) == Some((if basic == [] then [] else basic + [HYPHEN]) + digits)
  {
    hide Digits, CodedLabel;
    Start(s);
    ShortLabelFits(s);
    digits := Digits(s, INITIAL_N, 0, INITIAL_N, 0, INITIAL_BIAS);
  }

  /** The label's basic characters are those in front of at and those behind the one there. */
  lemma BasicAre(a: Text, rest: Text, c: Text)
    requires (forall k :: 0 <= k < |a| ==> a[k] < INITIAL_N) && (forall k :: 0 <= k < |c| ==> c[k] < INITIAL_N)
    requires forall k :: 0 <= k < |rest| ==> rest[k] >= INITIAL_N
    ensures Basic(a + rest + c) == a + c
  {
    hide UpTo;
    var s, n := a + rest + c, INITIAL_N - 1;
    UpToSplit(s, |a + rest|, n);
    UpToSplit(a + rest, |a|, n);
    assert s[..|a + rest|] == a + rest && s[|a + rest|..] == c;
    assert (a + rest)[..|a|] == a && (a + rest)[|a|..] == rest;
    UpToAll(a, n);
    UpToAll(c, n);
    NoneUpTo(rest, n);
  }

  lemma {:induction false} NoneUpTo(s: Text, n: int)
    requires forall k :: 0 <= k < |s| ==> s[k] > n
    ensures UpTo(s, n) == []
  {
    if s != [] {
      NoneUpTo(s[..|s| - 1], n);
    }
  }

  lemma AtMostStep(s: Text, n: int, j: nat)
    requires j < |s|
    ensures AtMost(s, n, 0) == 0 && AtMost(s, n, j + 1) == AtMost(s, n, j) + if s[j] <= n then 1 else 0
  {
  }

  /** The first digit of a number. */
  lemma FirstDigitIs(q: nat, k: int, bias: int, t: int, q1: nat)
    requires t == Threshold(k, bias) && (q < t ==> q1 == 0) && (q >= t ==> q1 == (q - t) / (BASE - t))
    ensures VarInt(q, k, bias) ==
      if q < t then [EncodeDigit(q)] else [EncodeDigit(t + (q - t) % (BASE - t))] + VarInt(q1, k + BASE, bias)
  {
    hide EncodeDigit;
  }

  // ----- particular labels -----

  /** The label of one u with an umlaut. */
  lemma Umlaut()
    ensures CodedLabel(Chars("\U{00FC}")) == Some(Chars("tda"))
  {
    hide VarInt, Adapt, Digits, CodedLabel, Free, AtMost, From, UpTo;
    var s := Chars("\U{00FC}");
    UmlautIs();
    NoneUpTo(s, INITIAL_N - 1);
    var d0 := Starts(s, []);
    Umlaut1(s);
    var d1 := Writes(s, 128, 0, 128, 0, 72, 1, d0, 252, 0, 0, 124);
    WritesNoMore(s, 252, 1, 252, 1, 0, 2, d1);
    assert d0 == Chars("tda");
    assert [] + d0 == d0;
    assert Chars("tda") == (Chars("tda"));
  }

  lemma UmlautIs()
    ensures Chars("\U{00FC}") == [252]
    ensures Free([252], 252, 1, 252, 1)
  {
  }

  lemma Umlaut1(s: Text)
    requires s == [252]
    ensures Free(s, 128, 0, 252, 0) && AtMost(s, 252, 0) == 0
    ensures VarInt(124, BASE, 72) == Chars("tda") && Adapt(124, 1, true) == 0
  {
    hide VarInt, AdaptTail, AtMost;
    AtMostStep(s, 252, 0);
    FirstDigitIs(124, 36, 72, 1, 3);
    FirstDigitIs(3, 72, 72, 1, 0);
    FirstDigitIs(0, 108, 72, 26, 0);
    assert Damped(124, 1, true) == 0;
    AdaptTailEnds(0, 0);
  }

  /** With a y with an acute accent behind it. */
  lemma UmlautAndAccent()
    ensures CodedLabel(Chars("\U{00FC}\U{00FD}")) == Some(Chars("tdac"))
  {
    hide VarInt, Adapt, Digits, CodedLabel, Free, AtMost, From, UpTo;
    var s := Chars("\U{00FC}\U{00FD}");
    UmlautAndAccentIs();
    NoneUpTo(s, INITIAL_N - 1);
    var d0 := Starts(s, []);
    UmlautAndAccent1(s);
    var d1 := Writes(s, 128, 0, 128, 0, 72, 1, d0, 252, 0, 0, 124);
    UmlautAndAccent2(s);
    var d2 := Writes(s, 252, 1, 252, 1, 0, 2, d1, 253, 1, 1, 2);
    WritesNoMore(s, 253, 2, 253, 2, 0, 3, d2);
    assert d0 == Chars("tda") + Chars("c");
    assert [] + d0 == d0;
    assert Chars("tdac") == (Chars("tda") + Chars("c"));
  }

  lemma UmlautAndAccentIs()
    ensures Chars("\U{00FC}\U{00FD}") == [252, 253]
    ensures Free([252, 253], 253, 2, 253, 2)
  {
  }

  lemma UmlautAndAccent1(s: Text)
    requires s == [252, 253]
    ensures Free(s, 128, 0, 252, 0) && AtMost(s, 252, 0) == 0
    ensures VarInt(124, BASE, 72) == Chars("tda") && Adapt(124, 1, true) == 0
  {
    hide VarInt, AdaptTail, AtMost;
    AtMostStep(s, 252, 0);
    FirstDigitIs(124, 36, 72, 1, 3);
    FirstDigitIs(3, 72, 72, 1, 0);
    FirstDigitIs(0, 108, 72, 26, 0);
    assert Damped(124, 1, true) == 0;
    AdaptTailEnds(0, 0);
  }

  lemma UmlautAndAccent2(s: Text)
    requires s == [252, 253]
    ensures Free(s, 252, 1, 253, 1) && AtMost(s, 253, 1) == 1
    ensures VarInt(2, BASE, 0) == Chars("c") && Adapt(2, 2, false) == 0
  {
    hide VarInt, AdaptTail, AtMost;
    AtMostStep(s, 253, 0);
    FirstDigitIs(2, 36, 0, 26, 0);
    assert Damped(2, 2, false) == 1;
    AdaptTailEnds(1, 0);
  }

  /** The German word for books. */
  lemma Books()
    ensures CodedLabel(Chars("b\U{00FC}cher")) == Some(Chars("bcher-kva"))
  {
    hide VarInt, Adapt, Digits, CodedLabel, Free, AtMost, From, UpTo;
    var s := Chars("b\U{00FC}cher");
    BooksIs();
    BasicAre(Chars("b"), Chars("\U{00FC}"), Chars("cher"));
    assert s == Chars("b") + Chars("\U{00FC}") + Chars("cher");
    var d0 := Starts(s, Chars("b") + Chars("cher"));
    Books1(s);
    var d1 := Writes(s, 128, 0, 128, 0, 72, 6, d0, 252, 1, 1, 745);
    WritesNoMore(s, 252, 2, 252, 2, 0, 7, d1);
    assert d0 == Chars("kva");
    assert Chars("bcher-kva") == Chars("b") + Chars("cher") + [HYPHEN] + (Chars("kva"));
  }

  lemma BooksIs()
    ensures Chars("b\U{00FC}cher") == [98, 252, 99, 104, 101, 114]
    ensures Free([98, 252, 99, 104, 101, 114], 252, 2, 252, 6)
  {
  }

  lemma Books1(s: Text)
    requires s == [98, 252, 99, 104, 101, 114]
    ensures Free(s, 128, 0, 252, 1) && AtMost(s, 252, 1) == 1
    ensures VarInt(745, BASE, 72) == Chars("kva") && Adapt(745, 6, true) == 0
  {
    hide VarInt, AdaptTail, AtMost;
    AtMostStep(s, 252, 0);
    FirstDigitIs(745, 36, 72, 1, 21);
    FirstDigitIs(21, 72, 72, 1, 0);
    FirstDigitIs(0, 108, 72, 26, 0);
    assert Damped(745, 6, true) == 1;
    AdaptTailEnds(1, 0);
  }

  /** Hello and the Chinese word for world. */
  lemma HelloWorld()
    ensures CodedLabel(Chars("Hello\U{4E16}\U{754C}")) == Some(Chars("Hello-ck1hg65u"))
  {
    hide VarInt, Adapt, Digits, CodedLabel, Free, AtMost, From, UpTo;
    var s := Chars("Hello\U{4E16}\U{754C}");
    HelloWorldIs();
    BasicAre(Chars("Hello"), Chars("\U{4E16}\U{754C}"), Chars(""));
    assert s == Chars("Hello") + Chars("\U{4E16}\U{754C}") + Chars("");
    var d0 := Starts(s, Chars("Hello") + Chars(""));
    HelloWorld1(s);
    var d1 := Writes(s, 128, 0, 128, 0, 72, 6, d0, 19990, 5, 5, 119177);
    HelloWorld2(s);
    var d2 := Writes(s, 19990, 6, 19990, 6, 30, 7, d1, 30028, 6, 6, 70266);
    WritesNoMore(s, 30028, 7, 30028, 7, 88, 8, d2);
    assert d0 == Chars("ck1h") + Chars("g65u");
    assert Chars("Hello-ck1hg65u") == Chars("Hello") + Chars("") + [HYPHEN] + (Chars("ck1h") + Chars("g65u"));
  }

  lemma HelloWorldIs()
    ensures Chars("Hello\U{4E16}\U{754C}") == [72, 101, 108, 108, 111, 19990, 30028]
    ensures Free([72, 101, 108, 108, 111, 19990, 30028], 30028, 7, 30028, 7)
  {
  }

  lemma HelloWorld1(s: Text)
    requires s == [72, 101, 108, 108, 111, 19990, 30028]
    ensures Free(s, 128, 0, 19990, 5) && AtMost(s, 19990, 5) == 5
    ensures VarInt(119177, BASE, 72) == Chars("ck1h") && Adapt(119177, 6, true) == 30
  {
    hide VarInt, AdaptTail, AtMost;
    AtMostStep(s, 19990, 0);
    AtMostStep(s, 19990, 1);
    AtMostStep(s, 19990, 2);
    AtMostStep(s, 19990, 3);
    AtMostStep(s, 19990, 4);
    FirstDigitIs(119177, 36, 72, 1, 3405);
    FirstDigitIs(3405, 72, 72, 1, 97);
    FirstDigitIs(97, 108, 72, 26, 7);
    FirstDigitIs(7, 144, 72, 26, 0);
    assert Damped(119177, 6, true) == 198;
    AdaptTailEnds(198, 0);
  }

  lemma HelloWorld2(s: Text)
    requires s == [72, 101, 108, 108, 111, 19990, 30028]
    ensures Free(s, 19990, 6, 30028, 6) && AtMost(s, 30028, 6) == 6
    ensures VarInt(70266, BASE, 30) == Chars("g65u") && Adapt(70266, 7, false) == 88
  {
    hide VarInt, AdaptTail, AtMost;
    AtMostStep(s, 30028, 0);
    AtMostStep(s, 30028, 1);
    AtMostStep(s, 30028, 2);
    AtMostStep(s, 30028, 3);
    AtMostStep(s, 30028, 4);
    AtMostStep(s, 30028, 5);
    FirstDigitIs(70266, 36, 30, 6, 2342);
    FirstDigitIs(2342, 72, 30, 26, 231);
    FirstDigitIs(231, 108, 30, 26, 20);
    FirstDigitIs(20, 144, 30, 26, 0);
    assert Damped(70266, 7, false) == 40152;
    AdaptTailStep(40152, 0);
    AdaptTailStep(1147, 36);
    AdaptTailEnds(32, 72);
  }

  /** The Chinese word for commerce. */
  lemma Commerce()
    ensures CodedLabel(Chars("\U{5546}\U{696D}")) == Some(Chars("czrw28b"))
  {
    hide VarInt, Adapt, Digits, CodedLabel, Free, AtMost, From, UpTo;
    var s := Chars("\U{5546}\U{696D}");
    CommerceIs();
    NoneUpTo(s, INITIAL_N - 1);
    var d0 := Starts(s, []);
    Commerce1(s);
    var d1 := Writes(s, 128, 0, 128, 0, 72, 1, d0, 21830, 0, 0, 21702);
    Commerce2(s);
    var d2 := Writes(s, 21830, 1, 21830, 1, 22, 2, d1, 26989, 1, 1, 10318);
    WritesNoMore(s, 26989, 2, 26989, 2, 66, 3, d2);
    assert d0 == Chars("czr") + Chars("w28b");
    assert [] + d0 == d0;
    assert Chars("czrw28b") == (Chars("czr") + Chars("w28b"));
  }

  lemma CommerceIs()
    ensures Chars("\U{5546}\U{696D}") == [21830, 26989]
    ensures Free([21830, 26989], 26989, 2, 26989, 2)
  {
  }

  lemma Commerce1(s: Text)
    requires s == [21830, 26989]
    ensures Free(s, 128, 0, 21830, 0) && AtMost(s, 21830, 0) == 0
    ensures VarInt(21702, BASE, 72) == Chars("czr") && Adapt(21702, 1, true) == 22
  {
    hide VarInt, AdaptTail, AtMost;
    AtMostStep(s, 21830, 0);
    FirstDigitIs(21702, 36, 72, 1, 620);
    FirstDigitIs(620, 72, 72, 1, 17);
    FirstDigitIs(17, 108, 72, 26, 0);
    assert Damped(21702, 1, true) == 62;
    AdaptTailEnds(62, 0);
  }

  lemma Commerce2(s: Text)
    requires s == [21830, 26989]
    ensures Free(s, 21830, 1, 26989, 1) && AtMost(s, 26989, 1) == 1
    ensures VarInt(10318, BASE, 22) == Chars("w28b") && Adapt(10318, 2, false) == 66
  {
    hide VarInt, AdaptTail, AtMost;
    AtMostStep(s, 26989, 0);
    FirstDigitIs(10318, 36, 22, 14, 468);
    FirstDigitIs(468, 72, 22, 26, 44);
    FirstDigitIs(44, 108, 22, 26, 1);
    FirstDigitIs(1, 144, 22, 26, 0);
    assert Damped(10318, 2, false) == 7738;
    AdaptTailStep(7738, 0);
    AdaptTailEnds(221, 36);
  }
}
