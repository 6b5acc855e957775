/** The Internet checksum of icmp/message.go, and how Marshal and marshalMultipartMessageBody put it in place. */
module IcmpChecksum {
  import opened Utf8

  const WORD := 0x1_0000
  /** Two to the thirty-second, where the accumulator wraps around. */
  const WRAP := 0x1_0000_0000

  /** The little-endian 16-bit word at k. */
  function Field(b: Bytes, k: nat): (w: nat)
    requires k + 2 <= |b|
    ensures w < WORD
  {
    (b[k] as int) + 256 * (b[k + 1] as int)
  }

  /** The sum of the little-endian 16-bit words, where a last odd byte counts as the low byte of one. */
  function Sum(b: Bytes): nat {
    if |b| == 0 then 0
    else if |b| == 1 then b[0]
    else Field(b, 0) + Sum(b[2..])
  }

  /** The sum with its carries added back in twice, in 16 bits. */
  function Fold(s: nat): nat {
    var t := s / WORD + s % WORD;
    (t + t / WORD) % WORD
  }

  function ChecksumOf(b: Bytes): (c: nat)
    ensures c < WORD
  {
    WORD - 1 - Fold(Sum(b) % WRAP)
  }

  /** Folding is the remainder modulo 65535, except that only zero is folded to zero. */
  lemma FoldIsRemainder(s: nat)
    requires s < WRAP
    ensures Fold(s) < WORD && Fold(s) % (WORD - 1) == s % (WORD - 1) && (Fold(s) == 0 <==> s == 0)
  {
    var q, r := s / WORD, s % WORD;
    var t := q + r;
    assert s == q * (WORD - 1) + t;
    assert s % (WORD - 1) == t % (WORD - 1);
    assert t <= 2 * (WORD - 1);
    if t < WORD {
      assert Fold(s) == t;
    } else {
      assert t / WORD == 1 && (t + 1) % WORD == t + 1 - WORD;
      assert Fold(s) == t - (WORD - 1);
    }
  }

  lemma {:induction false} SumBound(b: Bytes)
    ensures Sum(b) <= (WORD - 1) * ((|b| + 1) / 2)
    decreases |b|
  {
    if |b| >= 2 {
      SumBound(b[2..]);
    }
  }

  /** Up to this many bytes the sum does not wrap around. */
  const MAX_COVERED := 131074

  lemma SmallSum(b: Bytes)
    requires |b| <= MAX_COVERED
    ensures Sum(b) < WRAP
  {
    SumBound(b);
    assert (WORD - 1) * ((|b| + 1) / 2) <= (WORD - 1) * (WORD + 1);
  }

  lemma SumStep(b: Bytes, i: nat)
    requires i + 2 <= |b|
    ensures Sum(b[i..]) == Field(b, i) + Sum(b[i + 2..])
  {
    assert b[i..][2..] == b[i + 2..];
  }

  lemma SumEnd(b: Bytes, i: nat)
    requires i <= |b| <= i + 1
    ensures Sum(b[i..]) == if i < |b| then b[i] as int else 0
  {
  }

  lemma WrappedSum(s: int, x: int, rest: int)
    ensures ((s + x) % WRAP + rest) % WRAP == (s + (x + rest)) % WRAP
  {
    var q := (s + x) / WRAP;
    assert s + (x + rest) == (s + x) % WRAP + rest + q * WRAP;
    ShiftedRemainder((s + x) % WRAP + rest, q);
  }

  lemma ShiftedRemainder(x: int, q: int)
    ensures (x + q * WRAP) % WRAP == x % WRAP
  {
  }

  /** checksum, in 32-bit arithmetic that wraps around. */
  method Checksum(b: Bytes) returns (c: nat)
    ensures c == ChecksumOf(b)
  {
    hide Sum;
    var csumcv := |b| - 1;
    var s := 0;
    var i := 0;
    while i < csumcv
      invariant 0 <= i <= |b| && i % 2 == 0 && 0 <= s < WRAP
      invariant (s + Sum(b[i..])) % WRAP == Sum(b) % WRAP
    {
      SumStep(b, i);
      WrappedSum(s, Field(b, i), Sum(b[i + 2..]));
      s := (s + (256 * (b[i + 1] as int) + b[i])) % WRAP;
      i := i + 2;
    }
    SumEnd(b, i);
    if csumcv % 2 == 0 {
      s := (s + b[csumcv]) % WRAP;
    }
    assert s == Sum(b) % WRAP;
    s := s / WORD + s % WORD;
    s := s + s / WORD;
    c := WORD - 1 - s % WORD;
  }

  // ----- putting it in place -----

  /** The bits that two numbers of n bits have in common. */
  function And(a: nat, b: nat, n: nat): (r: nat) {
    if n == 0 then 0 else 2 * And(a / 2, b / 2, n - 1) + (if a % 2 == 1 && b % 2 == 1 then 1 else 0)
  }

  /** The bits that one of two numbers of n bits has and the other has not. */
  function Xor(a: nat, b: nat, n: nat): (r: nat) {
    if n == 0 then 0 else 2 * Xor(a / 2, b / 2, n - 1) + (if a % 2 == b % 2 then 0 else 1)
  }

  function Power(n: nat): (p: nat)
    ensures p > 0
  {
    if n == 0 then 1 else 2 * Power(n - 1)
  }

  lemma {:induction false} XorIsSum(a: nat, b: nat, n: nat)
    requires a < Power(n) && b < Power(n)
    ensures Xor(a, b, n) + 2 * And(a, b, n) == a + b && Xor(a, b, n) < Power(n)
    ensures And(a, b, n) <= a && And(a, b, n) <= b
    decreases n
  {
    if n > 0 {
      XorIsSum(a / 2, b / 2, n - 1);
    }
  }

  function XorByte(a: Byte, b: Byte): (r: Byte) {
    XorIsSum(a, b, 8);
    assert Power(8) == 256;
    Xor(a, b, 8)
  }

  function AndByte(a: Byte, b: Byte): (r: Byte) {
    XorIsSum(a, b, 8);
    assert Power(8) == 256;
    And(a, b, 8)
  }

  /** b[k] ^= byte(c), b[k+1] ^= byte(c >> 8) */
  function Patched(b: Bytes, k: nat, c: nat): (r: Bytes)
    requires k + 2 <= |b| && c < WORD
    ensures |r| == |b|
  {
    b[k := XorByte(b[k], c % 256)][k + 1 := XorByte(b[k + 1], c / 256)]
  }

  lemma {:induction false} SumChanges(b: Bytes, k: nat, x: Byte, y: Byte)
    requires k + 2 <= |b| && k % 2 == 0
    ensures Sum(b[k := x][k + 1 := y]) + Field(b, k) == Sum(b) + x + 256 * y
    decreases k
  {
    var d := b[k := x][k + 1 := y];
    if k == 0 {
      assert d[2..] == b[2..];
    } else {
      assert d[2..] == b[2..][k - 2 := x][k - 1 := y];
      SumChanges(b[2..], k - 2, x, y);
    }
  }

  /** The bits that the field has in common with the checksum. */
  function Common(b: Bytes, k: nat, c: nat): (r: nat)
    requires k + 2 <= |b| && c < WORD
    ensures r < WORD
  {
    AndByte(b[k], c % 256) + 256 * AndByte(b[k + 1], c / 256)
  }

  lemma ByteSum(a: Byte, c: Byte)
    ensures (XorByte(a, c) as int) + 2 * (AndByte(a, c) as int) == (a as int) + c
    ensures AndByte(a, c) <= a && AndByte(a, c) <= c
  {
    hide Xor, And;
    assert Power(8) == 256;
    XorIsSum(a, c, 8);
  }

  lemma PatchedSum(b: Bytes, k: nat, c: nat)
    requires k + 2 <= |b| && k % 2 == 0 && c < WORD
    ensures Sum(Patched(b, k, c)) + 2 * Common(b, k, c) == Sum(b) + c
  {
    hide XorByte, AndByte, Sum;
    var lo, hi := c % 256, c / 256;
    ByteSum(b[k], lo);
    ByteSum(b[k + 1], hi);
    SumChanges(b, k, XorByte(b[k], lo), XorByte(b[k + 1], hi));
  }

  lemma CommonIsSmall(b: Bytes, k: nat, c: nat)
    requires k + 2 <= |b| && c < WORD
    ensures Common(b, k, c) <= Field(b, k) && Common(b, k, c) <= c
  {
    hide XorByte, AndByte;
    ByteSum(b[k], c % 256);
    ByteSum(b[k + 1], c / 256);
  }

  lemma {:induction false} FieldInSum(b: Bytes, k: nat)
    requires k + 2 <= |b| && k % 2 == 0
    ensures Field(b, k) <= Sum(b)
    decreases k
  {
    if k > 0 {
      FieldInSum(b[2..], k - 2);
    }
  }

  /** The sum has wrapped around to a number of 16 bits. */
  predicate WrappedLow(b: Bytes) {
    Sum(b) >= WRAP && Sum(b) % WRAP < WORD
  }

  /**
   * Putting the checksum in place with ^= makes the buffer's checksum zero exactly if the field that it goes to has no
   * bit in common with it, as a zero field has, or just the highest bit when the sum has wrapped around to 16 bits.
   */
  lemma PatchIsRight(b: Bytes, k: nat)
    requires k + 2 <= |b| && k % 2 == 0
    ensures ChecksumOf(Patched(b, k, ChecksumOf(b))) == 0
      <==> Common(b, k, ChecksumOf(b)) == 0 || (Common(b, k, ChecksumOf(b)) == 0x8000 && WrappedLow(b))
    ensures |b| <= MAX_COVERED ==> !WrappedLow(b)
  {
    hide Sum, Fold, Patched, Common;
    var c := ChecksumOf(b);
    var p, m, s := Patched(b, k, c), Common(b, k, c), Sum(b);
    PatchedSum(b, k, c);
    FoldIsRemainder(s % WRAP);
    FoldIsRemainder(Sum(p) % WRAP);
    CommonIsSmall(b, k, c);
    FieldInSum(b, k);
    ZeroExactly(s, c, m, Sum(p), Fold(s % WRAP), Fold(Sum(p) % WRAP));
    if |b| <= MAX_COVERED {
      SmallSum(b);
    }
  }

  /** The wrapped sum and its checksum add up to a multiple of 65535 that still fits, as 2^32 - 1 is one. */
  lemma NextMultiple(s: nat, c: nat, fs: nat) returns (e: nat)
    requires s < WRAP && fs + c == 0xFFFF && fs % 0xFFFF == s % 0xFFFF && (fs == 0 <==> s == 0)
    ensures s + c == 0xFFFF * e && 1 <= e <= 0x1_0001
    ensures e == 1 <==> s < WORD
  {
    e := s / 0xFFFF + (if fs < 0xFFFF then 1 else 0);
  }

  lemma ZeroExactly(s: nat, c: nat, m: nat, p: nat, fs: nat, fp: nat)
    requires c <= 0xFFFF && m <= c && m <= s && p + 2 * m == s + c && fs + c == 0xFFFF
    requires fs % 0xFFFF == s % WRAP % 0xFFFF && (fs == 0 <==> s % WRAP == 0)
    requires fp <= 0xFFFF && fp % 0xFFFF == p % WRAP % 0xFFFF && (fp == 0 <==> p % WRAP == 0)
    ensures fp == 0xFFFF <==> m == 0 || (m == 0x8000 && s >= WRAP && s % WRAP < WORD)
  {
    var k, low := s / WRAP, s % WRAP;
    var e := NextMultiple(low, c, fs);
    assert p == k * WRAP + (0xFFFF * e - 2 * m);
    if 0xFFFF * e >= 2 * m {
      Within(p, k, 0xFFFF * e - 2 * m);
      if fp == 0xFFFF {
        var d := p % WRAP / 0xFFFF;
        assert 2 * m == 0xFFFF * (e - d);
      }
    } else {
      assert e == 1 && k >= 1;
      Within(p, k - 1, WRAP + 0xFFFF - 2 * m);
      if fp == 0xFFFF {
        var d := p % WRAP / 0xFFFF;
        assert 2 * m - 1 == 0xFFFF * (0x1_0002 - d);
      }
    }
  }

  lemma Within(p: nat, k: int, r: int)
    requires p == k * WRAP + r && 0 <= r < WRAP
    ensures p % WRAP == r
  {
  }

  /** A field of zeros has no bit in common with anything. */
  lemma ZeroField(b: Bytes, k: nat)
    requires k + 2 <= |b| && k % 2 == 0 && b[k] == b[k + 1] == 0
    ensures ChecksumOf(Patched(b, k, ChecksumOf(b))) == 0
    ensures Patched(b, k, ChecksumOf(b)) == b[k := ChecksumOf(b) % 256][k + 1 := ChecksumOf(b) / 256]
  {
    hide Sum, Fold, And, Xor;
    var c := ChecksumOf(b);
    assert Power(8) == 256;
    XorIsSum(0, c % 256, 8);
    XorIsSum(0, c / 256, 8);
    PatchIsRight(b, k);
  }

  const PRESET: Bytes := [1, 0, 1, 0]

  lemma PresetSum()
    ensures Sum(PRESET) == 2
  {
    assert PRESET[2..] == [1, 0] && [1, 0][2..] == [];
    assert Sum([1, 0]) == 1;
  }

  lemma OddBytes(a: Byte, b: Byte)
    requires a % 2 == 1 && b % 2 == 1
    ensures AndByte(a, b) >= 1
  {
  }

  /** Over a field that holds a one already the exclusive or puts in a wrong checksum, which the comment beside it says
      it does not. No message is marshaled that way: all of them start with zeros in the field. */
  lemma PresetFieldFails()
    ensures ChecksumOf(Patched(PRESET, 2, ChecksumOf(PRESET))) != 0
  {
    hide Sum, Patched, AndByte, And;
    PresetSum();
    OddBytes(1, 0xFD);
    PatchIsRight(PRESET, 2);
  }
}
