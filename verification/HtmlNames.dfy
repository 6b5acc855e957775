/** What a named character reference stands for, said of the letters themselves and of what follows them. */
module HtmlNames {
  import opened Int32
  import opened Utf8
  import opened HtmlEntity
  import opened HtmlEscape

  /** The bytes of an ASCII string. */
  function Ascii(s: string): (b: Bytes)
    requires forall k :: 0 <= k < |s| ==> s[k] as int < 0x80
    ensures |b| == |s| && forall k :: 0 <= k < |s| ==> b[k] == s[k] as int
  {
    seq(|s|, k requires 0 <= k < |s| => s[k] as int)
  }

  predicate LetterOrDigit(c: Byte) {
    'a' as int <= c <= 'z' as int || 'A' as int <= c <= 'Z' as int || '0' as int <= c <= '9' as int
  }

  /** Letters and digits, with nothing of the kind behind them. */
  ghost predicate IsName(letters: Bytes, tail: Bytes) {
    && letters != [] && (forall k :: 0 <= k < |letters| ==> LetterOrDigit(letters[k]))
    && (tail == [] || !LetterOrDigit(tail[0]))
  }

  predicate Closed(tail: Bytes) {
    tail != [] && tail[0] == SEMICOLON
  }

  /** The name that is looked up: with its semicolon, if it has one. */
  function NameOf(letters: Bytes, tail: Bytes): Bytes {
    if Closed(tail) then letters + [SEMICOLON] else letters
  }

  lemma {:induction false} ScanLetters(s: Bytes, i: nat, end: nat)
    requires i <= end <= |s| && (forall k :: i <= k < end ==> Alphanumeric(s[k]))
    requires end < |s| ==> !Alphanumeric(s[end])
    ensures ScanName(s, i) == if end < |s| && s[end] == SEMICOLON then end + 1 else end
    decreases end - i
  {
    if i < end {
      ScanLetters(s, i + 1, end);
    }
  }

  lemma NameIsRead(letters: Bytes, tail: Bytes)
    requires IsName(letters, tail)
    ensures var s, name := [AMPERSAND] + letters + tail, NameOf(letters, tail);
      && ScanName(s, 1) == 1 + |name| <= |s| && s[1..1 + |name|] == name && s[..1 + |name|] == [AMPERSAND] + name
      && (tail != [] ==> |s| > 1 + |letters| && s[1 + |letters|] == tail[0])
      && s[1] != HASH
  {
    var s, end := [AMPERSAND] + letters + tail, 1 + |letters|;
    assert forall k :: 1 <= k < end ==> s[k] == letters[k - 1];
    assert tail != [] ==> s[end] == tail[0];
    ScanLetters(s, 1, end);
  }

  /** A name in the tables is replaced by one character or two, in text and in attributes, whatever follows. In an
      attribute a name without a semicolon is left alone in front of "=". */
  lemma KnownName(t: Entities, letters: Bytes, tail: Bytes, attribute: bool)
    requires IsName(letters, tail)
    ensures var name, e := NameOf(letters, tail), Entity(t, [AMPERSAND] + letters + tail, attribute);
      && (attribute && tail != [] && tail[0] == EQUALS ==> e == Expansion([AMPERSAND] + letters, 1 + |letters|))
      && (!(attribute && tail != [] && tail[0] == EQUALS) ==>
        && (One(t, name) != 0 ==> e == Expansion(Encode(One(t, name)), 1 + |name|))
        && (One(t, name) == 0 && Two(t, name).0 != 0 ==>
          e == Expansion(Encode(Two(t, name).0) + Encode(Two(t, name).1), 1 + |name|)))
  {
    hide Encode, ScanName, LongestPrefix;
    NameIsRead(letters, tail);
  }

  /** The name is in neither table, and not left alone in front of "=". */
  ghost predicate Unknown(t: Entities, letters: Bytes, tail: Bytes, attribute: bool) {
    var name := NameOf(letters, tail);
    One(t, name) == 0 && Two(t, name).0 == 0 && !(attribute && tail != [] && tail[0] == EQUALS)
  }

  /** In text an unknown name is read up to the longest of its proper prefixes of two to six bytes that is known. */
  lemma KnownPrefix(t: Entities, letters: Bytes, tail: Bytes, m: nat)
    requires IsName(letters, tail) && Unknown(t, letters, tail, false)
    requires 2 <= m <= 6 && m < |NameOf(letters, tail)| && One(t, NameOf(letters, tail)[..m]) != 0
    requires forall j :: m < j <= 6 && j < |NameOf(letters, tail)| ==> One(t, NameOf(letters, tail)[..j]) == 0
    ensures Entity(t, [AMPERSAND] + letters + tail, false)
         == Expansion(Encode(One(t, NameOf(letters, tail)[..m])), m + 1)
  {
    hide Encode, ScanName, LongestPrefix;
    NameIsRead(letters, tail);
  }

  /** Otherwise, and in attributes, an unknown name is left as it is. */
  lemma UnknownName(t: Entities, letters: Bytes, tail: Bytes, attribute: bool)
    requires IsName(letters, tail) && Unknown(t, letters, tail, attribute)
    requires attribute ||
      forall j :: 2 <= j <= 6 && j < |NameOf(letters, tail)| ==> One(t, NameOf(letters, tail)[..j]) == 0
    ensures var name := NameOf(letters, tail);
      Entity(t, [AMPERSAND] + letters + tail, attribute) == Expansion([AMPERSAND] + name, 1 + |name|)
  {
    hide Encode, ScanName, LongestPrefix;
    NameIsRead(letters, tail);
  }

  /** An ampersand in front of anything but a letter, a digit or "#" stands for itself, and so does a semicolon that
      follows it. */
  lemma NoName(t: Entities, tail: Bytes, attribute: bool)
    requires tail == [] || (!LetterOrDigit(tail[0]) && tail[0] != HASH)
    requires One(t, [SEMICOLON]) == 0 && Two(t, [SEMICOLON]).0 == 0
    ensures Entity(t, [AMPERSAND] + tail, attribute) ==
      if Closed(tail) then Expansion([AMPERSAND, SEMICOLON], 2) else Expansion([AMPERSAND], 1)
  {
    hide Encode, ScanName, LongestPrefix;
    var s := [AMPERSAND] + tail;
    if tail != [] {
      assert s[1] == tail[0];
      ScanLetters(s, 1, 1);
      assert s[1..1] == [] && s[1..2] == [s[1]] && s[..1] == [AMPERSAND] && s[..2] == [s[0], s[1]];
    }
  }

  // ----- particular references -----

  /** With the name "not" known, and nothing longer that it begins, "&notit;" is read as the sign for not and "it;". In
      an attribute it is left as it is. */
  lemma PrefixExample(t: Entities, tail: Bytes)
    requires One(t, Ascii("not")) == 0xAC && One(t, Ascii("noti")) == 0 && One(t, Ascii("notit")) == 0
    requires One(t, Ascii("notit;")) == 0 && Two(t, Ascii("notit;")).0 == 0
    ensures var s := [AMPERSAND] + Ascii("notit") + (Ascii(";") + tail);
      && Entity(t, s, false) == Expansion([0xC2, 0xAC], 4)
      && Entity(t, s, true) == Expansion(Ascii("&notit;"), 7)
  {
    hide Entity, One, Two;
    var letters, rest := Ascii("notit"), Ascii(";") + tail;
    assert NameOf(letters, rest) == Ascii("notit;");
    assert Ascii("notit;")[..3] == Ascii("not") && Ascii("notit;")[..4] == Ascii("noti");
    assert Ascii("notit;")[..5] == Ascii("notit");
    KnownPrefix(t, letters, rest, 3);
    UnknownName(t, letters, rest, true);
    assert [AMPERSAND] + Ascii("notit;") == Ascii("&notit;");
  }

  /** "&#233;" is the letter e with an acute accent. */
  lemma AccentExample(t: Entities, tail: Bytes, attribute: bool)
    ensures Entity(t, Ascii("&#233;") + tail, attribute) == Expansion([0xC3, 0xA9], 6)
  {
    hide Entity, Encode, Adjusted, Value, Wrap;
    var ds := Ascii("233");
    assert ds[0..] == ds && ds[3..] == [];
    ValueAt(ds, 0, 0);
    ValueAt(ds, 1, 2);
    ValueAt(ds, 2, 23);
    NoMoreDigits(233);
    NumericReference(t, false, 0, ds, Ascii(";") + tail, attribute);
    AccentRune();
    assert Reference(false, 0, ds) + (Ascii(";") + tail) == Ascii("&#233;") + tail;
  }

  lemma NoMoreDigits(x: nat)
    ensures Value([], false, x) == x
  {
  }

  lemma AccentRune()
    ensures Encode(Adjusted(Wrap(233))) == [0xC3, 0xA9]
  {
  }

  const DIGITS := "0123456789abcdef"

  /** The digits of decimal and of hexadecimal references, the latter in either case. */
  lemma DigitsAre(c: Byte, d: int, hex: bool)
    requires 0 <= d < if hex then 16 else 10
    ensures Base(hex) == if hex then 16 else 10
    ensures |DIGITS| == 16 && (Digit(c, hex) == d <==>
      (c == DIGITS[d] as int || ('a' <= DIGITS[d] && c == DIGITS[d] as int - 'a' as int + 'A' as int)))
  {
    assert d < 10 ==> DIGITS[d] as int == '0' as int + d;
    assert d >= 10 ==> DIGITS[d] as int == 'a' as int + d - 10;
  }

  /** The numbers from 128 to 159 stand for the characters of Windows-1252, and those that it leaves out for
      themselves. */
  const WINDOWS_1252 := "\U{20AC}\U{0081}\U{201A}\U{0192}\U{201E}\U{2026}\U{2020}\U{2021}\U{02C6}\U{2030}\U{0160}"
    + "\U{2039}\U{0152}\U{008D}\U{017D}\U{008F}\U{0090}\U{2018}\U{2019}\U{201C}\U{201D}\U{2022}"
    + "\U{2013}\U{2014}\U{02DC}\U{2122}\U{0161}\U{203A}\U{0153}\U{009D}\U{017E}\U{0178}"

  lemma WindowsCharacters(k: nat)
    requires k < 32
    ensures |WINDOWS_1252| == 32 && Adjusted(0x80 + k) == WINDOWS_1252[k] as int
  {
  }

  /** Six characters are escaped, and what for. */
  lemma EscapesAre(c: Byte)
    ensures EscapeOf(c) ==
      if c == '&' as int then Ascii("&amp;") else if c == '\'' as int then Ascii("&#39;")
      else if c == '<' as int then Ascii("&lt;") else if c == '>' as int then Ascii("&gt;")
      else if c == '"' as int then Ascii("&#34;") else if c == '\r' as int then Ascii("&#13;") else [c]
  {
  }
}
