/** unescapeEntity and unescape of html/escape.go: an in-place decoder against one that builds its output. */
module HtmlEntity {
  import opened Int32
  import opened Utf8

  /** The two entity tables; a missing name reads as zero. */
  datatype Entities = Entities(one: map<Bytes, int>, two: map<Bytes, (int, int)>)

  const AMPERSAND: Byte := 0x26
  const HASH: Byte := 0x23
  const SEMICOLON: Byte := 0x3B
  const EQUALS: Byte := 0x3D
  const LONGEST_WITHOUT_SEMICOLON := 6

  function One(t: Entities, name: Bytes): int {
    if name in t.one then t.one[name] else 0
  }

  function Two(t: Entities, name: Bytes): (int, int) {
    if name in t.two then t.two[name] else (0, 0)
  }

  /** The fact about the tables that html/entity_test.go checks: no expansion is longer than "&" and its name. */
  ghost predicate Compact(t: Entities) {
    && (forall name :: name in t.one ==> |Encode(t.one[name])| <= |name| + 1)
    && (forall name :: name in t.two ==> |Encode(t.two[name].0)| + |Encode(t.two[name].1)| <= |name| + 1)
  }

  // ----- numeric references -----

  function Digit(c: Byte, hex: bool): (d: int)
    ensures -1 <= d < 16
  {
    if 0x30 <= c <= 0x39 then c - 0x30
    else if hex && 0x61 <= c <= 0x66 then c - 0x61 + 10
    else if hex && 0x41 <= c <= 0x46 then c - 0x41 + 10
    else -1
  }

  function Base(hex: bool): int {
    if hex then 16 else 10
  }

  /** The int32 value of the digits from index i on, and the index after them and their semicolon. */
  function ScanNumber(s: Bytes, i: nat, hex: bool, x: int): (r: (int, nat))
    requires i <= |s|
    ensures i <= r.1 <= |s|
    decreases |s| - i
  {
    if i == |s| then (x, i)
    else if Digit(s[i], hex) >= 0 then ScanNumber(s, i + 1, hex, Wrap(Base(hex) * x + Digit(s[i], hex)))
    else if s[i] == SEMICOLON then (x, i + 1)
    else (x, i)
  }

  /** What 0x80 to 0x9F stand for in Windows-1252. */
  const REPLACEMENTS: seq<int> := [
    0x20AC, 0x0081, 0x201A, 0x0192, 0x201E, 0x2026, 0x2020, 0x2021, 0x02C6, 0x2030, 0x0160, 0x2039, 0x0152, 0x008D,
    0x017D, 0x008F, 0x0090, 0x2018, 0x2019, 0x201C, 0x201D, 0x2022, 0x2013, 0x2014, 0x02DC, 0x2122, 0x0161, 0x203A,
    0x0153, 0x009D, 0x017E, 0x0178
  ]

  function Adjusted(x: int): int {
    if 0x80 <= x <= 0x9F then REPLACEMENTS[x - 0x80]
    else if x == 0 || 0xD800 <= x <= 0xDFFF || x > 0x10FFFF then RUNE_ERROR
    else x
  }

  // ----- one entity -----

  /** The bytes an entity stands for and how many bytes it takes up. */
  datatype Expansion = Expansion(out: Bytes, used: nat)

  function Literal(s: Bytes): Expansion
    requires s != []
  {
    Expansion([s[0]], 1)
  }

  function Numeric(s: Bytes): (e: Expansion)
    requires |s| >= 2
    ensures 1 <= |e.out| <= e.used <= |s|
  {
    if |s| <= 3 then Literal(s)
    else
      var hex := s[2] == 0x78 || s[2] == 0x58;
      var (x, i) := ScanNumber(s, if hex then 3 else 2, hex, 0);
      if i <= 3 then Literal(s) else Expansion(Encode(Adjusted(x)), i)
  }

  predicate Alphanumeric(c: Byte) {
    0x61 <= c <= 0x7A || 0x41 <= c <= 0x5A || 0x30 <= c <= 0x39
  }

  /** The index after the letters and digits from i on and a semicolon behind them. */
  function ScanName(s: Bytes, i: nat): (r: nat)
    requires i <= |s|
    ensures i <= r <= |s|
    decreases |s| - i
  {
    if i == |s| then i
    else if Alphanumeric(s[i]) then ScanName(s, i + 1)
    else if s[i] == SEMICOLON then i + 1
    else i
  }

  /** The longest prefix of a name, of at least two and at most j bytes, that is an entity; zero if there is none. */
  function LongestPrefix(t: Entities, name: Bytes, j: int): (r: nat)
    requires j <= |name|
    ensures r > 0 ==> 1 < r <= j && One(t, name[..r]) != 0
    ensures forall m :: 1 < m <= j && r < m ==> One(t, name[..m]) == 0
    decreases j
  {
    if j <= 1 then 0
    else if One(t, name[..j]) != 0 then j
    else LongestPrefix(t, name, j - 1)
  }

  function Named(t: Entities, s: Bytes, attribute: bool): Expansion
    requires |s| >= 2
  {
    var i := ScanName(s, 1);
    var name := s[1..i];
    var verbatim := Expansion(s[..i], i);
    if name == [] then verbatim
    else if attribute && name[|name| - 1] != SEMICOLON && |s| > i && s[i] == EQUALS then verbatim
    else if One(t, name) != 0 then Expansion(Encode(One(t, name)), i)
    else if Two(t, name).0 != 0 then Expansion(Encode(Two(t, name).0) + Encode(Two(t, name).1), i)
    else if !attribute then
      var max := |name| - 1;
      var j := LongestPrefix(t, name, if max > LONGEST_WITHOUT_SEMICOLON then LONGEST_WITHOUT_SEMICOLON else max);
      if j > 0 then Expansion(Encode(One(t, name[..j])), j + 1) else verbatim
    else verbatim
  }

  /** What the entity at the start of s stands for. */
  function Entity(t: Entities, s: Bytes, attribute: bool): Expansion
    requires s != [] && s[0] == AMPERSAND
  {
    if |s| <= 1 then Literal(s)
    else if s[1] == HASH then Numeric(s)
    else Named(t, s, attribute)
  }

  /** An entity never grows, so the write cursor stays at or behind the read cursor. */
  lemma EntityShrinks(t: Entities, s: Bytes, attribute: bool)
    requires Compact(t) && s != [] && s[0] == AMPERSAND
    ensures var e := Entity(t, s, attribute); 1 <= |e.out| <= e.used <= |s|
  {
    hide Encode;
    if |s| > 1 && s[1] != HASH {
      var i := ScanName(s, 1);
      var name := s[1..i];
      assert |name| == i - 1;
    }
  }

  /** unescape as a function that builds its output. */
  ghost function Unescaped(t: Entities, s: Bytes, attribute: bool): Bytes
    requires Compact(t)
    decreases |s|
  {
    if s == [] then []
    else if s[0] != AMPERSAND then [s[0]] + Unescaped(t, s[1..], attribute)
    else
      EntityShrinks(t, s, attribute);
      var e := Entity(t, s, attribute);
      e.out + Unescaped(t, s[e.used..], attribute)
  }

  lemma {:induction false} UnescapedShrinks(t: Entities, s: Bytes, attribute: bool)
    requires Compact(t)
    ensures |Unescaped(t, s, attribute)| <= |s|
    decreases |s|
  {
    hide Entity;
    if s == [] {
    } else if s[0] != AMPERSAND {
      UnescapedShrinks(t, s[1..], attribute);
    } else {
      EntityShrinks(t, s, attribute);
      UnescapedShrinks(t, s[Entity(t, s, attribute).used..], attribute);
    }
  }

  // ----- in place -----

  /** The digits of a numeric reference, x an int32 rune that wraps. */
  method ReadNumber(b: array<Byte>, src: nat, start: nat, hex: bool) returns (x: int, i: nat)
    requires src + start <= b.Length
    ensures (x, i) == ScanNumber(b[src..], start, hex, 0) && src + i <= b.Length
  {
    ghost var s := b[src..];
    x, i := 0, start;
    while i < b.Length - src
      invariant start <= i <= |s| && InRange(x)
      invariant ScanNumber(s, i, hex, x) == ScanNumber(s, start, hex, 0)
    {
      var c := b[src + i];
      assert c == s[i];
      i := i + 1;
      if hex {
        if 0x30 <= c <= 0x39 {
          x := NextDigit(16, x, c, 0x30, 0);
          continue;
        } else if 0x61 <= c <= 0x66 {
          x := NextDigit(16, x, c, 0x61, 10);
          continue;
        } else if 0x41 <= c <= 0x46 {
          x := NextDigit(16, x, c, 0x41, 10);
          continue;
        }
      } else if 0x30 <= c <= 0x39 {
        x := NextDigit(10, x, c, 0x30, 0);
        continue;
      }
      if c != SEMICOLON {
        i := i - 1;
      }
      break;
    }
  }

  /** x = base*x + rune(c) - zero + ten, each operation wrapping. */
  method NextDigit(base: int, x: int, c: int, zero: int, ten: int) returns (r: int)
    ensures r == Wrap(base * x + (c - zero + ten))
  {
    hide Wrap;
    var scaled := base * x;
    r := Wrap(Wrap(Wrap(Wrap(scaled) + c) - zero) + ten);
    WrapSum(scaled, c);
    WrapSum(scaled + c, -zero);
    WrapSum(scaled + c - zero, ten);
    assert scaled + c - zero + ten == base * x + (c - zero + ten);
  }

  lemma WrapSum(a: int, b: int)
    ensures Wrap(Wrap(a) + b) == Wrap(a + b)
  {
    var k := (Wrap(a) - a) / 0x1_0000_0000;
    assert Wrap(a) == a + k * 0x1_0000_0000;
  }

  /** The letters and digits of a name. */
  method ReadName(b: array<Byte>, src: nat) returns (i: nat)
    requires src + 1 <= b.Length
    ensures i == ScanName(b[src..], 1) && 1 <= i && src + i <= b.Length
  {
    ghost var s := b[src..];
    i := 1;
    while i < b.Length - src
      invariant 1 <= i <= |s|
      invariant ScanName(s, i) == ScanName(s, 1)
    {
      var c := b[src + i];
      assert c == s[i];
      i := i + 1;
      if 0x61 <= c <= 0x7A || 0x41 <= c <= 0x5A || 0x30 <= c <= 0x39 {
        continue;
      }
      if c != SEMICOLON {
        i := i - 1;
      }
      break;
    }
  }

  /** copy(b[dst:dst+n], b[src:src+n]), dst at or before src. */
  method CopyDown(b: array<Byte>, dst: nat, src: nat, n: nat)
    requires dst <= src && src + n <= b.Length
    modifies b
    ensures b[..dst + n] == old(b[..dst]) + old(b[src..src + n])
    ensures b[src + n..] == old(b[src + n..])
  {
    forall k | 0 <= k < n {
      b[dst + k] := b[src + k];
    }
  }

  /** The state after an expansion has been written: what was written before, then its bytes; what is unread is kept. */
  ghost predicate Wrote(before: Bytes, after: Bytes, dst: nat, src: nat, e: Expansion, dst1: nat, src1: nat) {
    && dst <= src <= |before| == |after|
    && dst1 == dst + |e.out| && src1 == src + e.used && dst1 <= src1 <= |after|
    && after[..dst1] == before[..dst] + e.out
    && after[src1..] == before[src1..]
  }

  /** Writing the encoding of a rune over an entity that takes up at least as much room. */
  method WriteRune(b: array<Byte>, dst: nat, src: nat, r: int, used: nat) returns (dst1: nat)
    requires dst <= src && |Encode(r)| <= used && src + used <= b.Length
    modifies b
    ensures Wrote(old(b[..]), b[..], dst, src, Expansion(Encode(r), used), dst1, src + used)
  {
    hide Encode;
    ghost var before := b[..];
    var n := EncodeRune(b, dst, r);
    dst1 := dst + n;
    assert b[..][..dst1] == b[..dst1] && before[..dst] == old(b[..dst]);
    forall k | src + used <= k < b.Length
      ensures b[k] == before[k]
    {
      assert b[k] == b[dst1..][k - dst1] == old(b[dst1..])[k - dst1];
    }
  }

  /** Leaving n bytes as they are. */
  method WriteVerbatim(b: array<Byte>, dst: nat, src: nat, n: nat)
    requires dst <= src && 1 <= n && src + n <= b.Length
    modifies b
    ensures Wrote(old(b[..]), b[..], dst, src, Expansion(old(b[src..])[..n], n), dst + n, src + n)
  {
    ghost var before := b[..];
    CopyDown(b, dst, src, n);
    assert before[src..][..n] == before[src..src + n];
    assert b[..][..dst + n] == b[..dst + n];
  }

  /** The branch of unescapeEntity for "&#". */
  method UnescapeNumeric(b: array<Byte>, dst: nat, src: nat) returns (dst1: nat, src1: nat)
    requires dst <= src && src + 2 <= b.Length
    modifies b
    ensures Wrote(old(b[..]), b[..], dst, src, Numeric(old(b[src..])), dst1, src1)
  {
    hide Encode, Adjusted, ScanNumber;
    ghost var s := b[src..];
    if b.Length - src <= 3 {
      WriteVerbatim(b, dst, src, 1);
      assert s[..1] == [s[0]];
      return dst + 1, src + 1;
    }
    var c := b[src + 2];
    var hex := c == 0x78 || c == 0x58;
    var x, i := ReadNumber(b, src, if hex then 3 else 2, hex);
    if i <= 3 {
      WriteVerbatim(b, dst, src, 1);
      assert s[..1] == [s[0]];
      return dst + 1, src + 1;
    }
    dst1 := WriteRune(b, dst, src, Adjusted(x), i);
    src1 := src + i;
  }

  /** The search for the longest known prefix. */
  method FindPrefix(t: Entities, name: Bytes, max: int) returns (j: nat)
    requires max <= |name|
    ensures j == LongestPrefix(t, name, max)
  {
    var k := max;
    while k > 1
      invariant k <= max
      invariant LongestPrefix(t, name, k) == LongestPrefix(t, name, max)
    {
      if One(t, name[..k]) != 0 {
        return k;
      }
      k := k - 1;
    }
    j := 0;
  }

  /** The branch of unescapeEntity for names. */
  method UnescapeNamed(t: Entities, b: array<Byte>, dst: nat, src: nat, attribute: bool)
    returns (dst1: nat, src1: nat)
    requires Compact(t) && dst <= src && src + 2 <= b.Length && b[src] == AMPERSAND && b[src + 1] != HASH
    modifies b
    ensures Wrote(old(b[..]), b[..], dst, src, Named(t, old(b[src..]), attribute), dst1, src1)
  {
    hide Encode, ScanName, LongestPrefix, Wrote;
    ghost var s := b[src..];
    EntityShrinks(t, s, attribute);
    var i := ReadName(b, src);
    var name := b[src + 1..src + i];
    assert name == s[1..i];
    if name == [] {
    } else if attribute && name[|name| - 1] != SEMICOLON && b.Length - src > i && b[src + i] == EQUALS {
    } else if One(t, name) != 0 {
      dst1 := WriteRune(b, dst, src, One(t, name), i);
      return dst1, src + i;
    } else if Two(t, name).0 != 0 {
      dst1 := WriteTwo(b, dst, src, Two(t, name), i);
      return dst1, src + i;
    } else if !attribute {
      var max := |name| - 1;
      if max > LONGEST_WITHOUT_SEMICOLON {
        max := LONGEST_WITHOUT_SEMICOLON;
      }
      var j := FindPrefix(t, name, max);
      if j > 0 {
        dst1 := WriteRune(b, dst, src, One(t, name[..j]), j + 1);
        return dst1, src + j + 1;
      }
    }
    WriteVerbatim(b, dst, src, i);
    return dst + i, src + i;
  }

  /** Two runes, one behind the other. */
  method WriteTwo(b: array<Byte>, dst: nat, src: nat, r: (int, int), used: nat) returns (dst1: nat)
    requires dst <= src && |Encode(r.0)| + |Encode(r.1)| <= used && src + used <= b.Length
    modifies b
    ensures Wrote(old(b[..]), b[..], dst, src, Expansion(Encode(r.0) + Encode(r.1), used), dst1, src + used)
  {
    hide Encode;
    ghost var before := b[..];
    var n := EncodeRune(b, dst, r.0);
    ghost var middle := b[..];
    var n1 := EncodeRune(b, dst + n, r.1);
    dst1 := dst + n + n1;
    assert b[..dst1] == middle[..dst + n] + Encode(r.1);
    assert middle[..dst + n] == before[..dst] + Encode(r.0);
    assert b[..][..dst1] == b[..dst1];
    forall k | src + used <= k < b.Length
      ensures b[k] == before[k]
    {
      assert b[k] == b[dst1..][k - dst1] == middle[dst1..][k - dst1];
      assert middle[k] == middle[dst + n..][k - dst - n] == before[dst + n..][k - dst - n];
    }
  }

  /** unescapeEntity: the entity at src is written at dst, and nothing not yet read is touched. */
  method UnescapeEntity(t: Entities, b: array<Byte>, dst: nat, src: nat, attribute: bool)
    returns (dst1: nat, src1: nat)
    requires Compact(t) && dst <= src < b.Length && b[src] == AMPERSAND
    modifies b
    ensures Wrote(old(b[..]), b[..], dst, src, Entity(t, old(b[src..]), attribute), dst1, src1)
  {
    hide Encode, Named, Numeric, Wrote;
    ghost var s := b[src..];
    if b.Length - src <= 1 {
      WriteVerbatim(b, dst, src, 1);
      assert s[..1] == [s[0]];
      return dst + 1, src + 1;
    }
    if b[src + 1] == HASH {
      dst1, src1 := UnescapeNumeric(b, dst, src);
    } else {
      dst1, src1 := UnescapeNamed(t, b, dst, src, attribute);
    }
  }

  /** One round of the loop that moves bytes down: an entity or a plain byte. */
  method UnescapeStep(t: Entities, b: array<Byte>, dst: nat, src: nat, attribute: bool) returns (dst1: nat, src1: nat)
    requires Compact(t) && dst <= src < b.Length
    modifies b
    ensures dst1 <= src1 <= b.Length && src < src1
    ensures b[..dst1] + Unescaped(t, b[src1..], attribute) == old(b[..dst]) + Unescaped(t, old(b[src..]), attribute)
  {
    hide Unescaped, Entity;
    var c := b[src];
    ghost var rest, done, now := b[src..], b[..dst], b[..];
    if c == AMPERSAND {
      UnescapedEntity(t, rest, attribute);
      ghost var e := Entity(t, rest, attribute);
      dst1, src1 := UnescapeEntity(t, b, dst, src, attribute);
      WroteMeans(now, b[..], dst, src, e, dst1, src1);
      assert rest[e.used..] == now[src1..] == b[src1..];
      assert b[..dst1] == done + e.out;
    } else {
      UnescapedPlain(t, rest, attribute);
      b[dst] := c;
      dst1, src1 := dst + 1, src + 1;
      assert b[..dst1] == done + [c];
      assert b[src1..] == rest[1..];
    }
  }

  /** unescape: the prefix of the buffer that is returned is what the decoder that builds its output gives. */
  method Unescape(t: Entities, b: array<Byte>, attribute: bool) returns (n: nat)
    requires Compact(t)
    modifies b
    ensures n <= b.Length && b[..n] == Unescaped(t, old(b[..]), attribute)
  {
    hide Unescaped, Entity;
    ghost var want := Unescaped(t, b[..], attribute);
    var i := 0;
    assert b[..0] == [] && b[0..] == b[..];
    while i < b.Length && b[i] != AMPERSAND
      invariant 0 <= i <= b.Length
      invariant b[..i] + Unescaped(t, b[i..], attribute) == want
    {
      UnescapedPlain(t, b[i..], attribute);
      assert b[i..][1..] == b[i + 1..];
      assert b[..i + 1] == b[..i] + [b[i]];
      i := i + 1;
    }
    var dst, src := i, i;
    while src < b.Length
      invariant 0 <= dst <= src <= b.Length
      invariant b[..dst] + Unescaped(t, b[src..], attribute) == want
    {
      dst, src := UnescapeStep(t, b, dst, src, attribute);
    }
    UnescapedNothing(t, attribute);
    assert b[src..] == [];
    n := dst;
  }

  lemma WroteMeans(before: Bytes, after: Bytes, dst: nat, src: nat, e: Expansion, dst1: nat, src1: nat)
    requires Wrote(before, after, dst, src, e, dst1, src1)
    ensures dst1 <= src1 <= |after| == |before| && src1 == src + e.used && src <= |before| && dst <= src
    ensures after[..dst1] == before[..dst] + e.out && after[src1..] == before[src1..]
  {
  }

  lemma UnescapedPlain(t: Entities, s: Bytes, attribute: bool)
    requires Compact(t) && s != [] && s[0] != AMPERSAND
    ensures Unescaped(t, s, attribute) == [s[0]] + Unescaped(t, s[1..], attribute)
  {
  }

  lemma UnescapedEntity(t: Entities, s: Bytes, attribute: bool)
    requires Compact(t) && s != [] && s[0] == AMPERSAND
    ensures
      var e := Entity(t, s, attribute);
      1 <= e.used <= |s| && Unescaped(t, s, attribute) == e.out + Unescaped(t, s[e.used..], attribute)
  {
    hide Entity;
    EntityShrinks(t, s, attribute);
  }

  lemma UnescapedNothing(t: Entities, attribute: bool)
    requires Compact(t)
    ensures Unescaped(t, [], attribute) == []
  {
  }
}
