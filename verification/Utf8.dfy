/** Go's utf8.EncodeRune. */
module Utf8 {
  type Byte = b: int | 0 <= b < 256
  type Bytes = seq<Byte>

  const RUNE_ERROR := 0xFFFD
  const MAX_RUNE := 0x10FFFF

  /** The bytes written for a rune; what is not a scalar value is written as the replacement character. */
  function Encode(r: int): (bs: Bytes)
    ensures 1 <= |bs| <= 4
  {
    if 0 <= r <= 0x7F then [r]
    else if 0 <= r <= 0x7FF then [0xC0 + r / 64, 0x80 + r % 64]
    else if r < 0 || r > MAX_RUNE || 0xD800 <= r <= 0xDFFF then [0xEF, 0xBF, 0xBD]
    else if r <= 0xFFFF then [0xE0 + r / 4096, 0x80 + r / 64 % 64, 0x80 + r % 64]
    else [0xF0 + r / 262144, 0x80 + r / 4096 % 64, 0x80 + r / 64 % 64, 0x80 + r % 64]
  }

  /** EncodeRune(b[at:], r). */
  method EncodeRune(b: array<Byte>, at: nat, r: int) returns (n: nat)
    requires at + |Encode(r)| <= b.Length
    modifies b
    ensures n == |Encode(r)|
    ensures b[..at + n] == old(b[..at]) + Encode(r)
    ensures b[at + n..] == old(b[at + n..])
  {
    hide Encode;
    ghost var before := b[..];
    var bs := Encode(r);
    n := |bs|;
    var k := 0;
    while k < n
      invariant 0 <= k <= n
      invariant b[..at + k] == before[..at] + bs[..k]
      invariant b[at + n..] == before[at + n..]
    {
      assert bs[..k + 1] == bs[..k] + [bs[k]];
      b[at + k] := bs[k];
      assert b[..at + k + 1] == b[..at + k] + [bs[k]];
      k := k + 1;
    }
    assert bs[..n] == bs;
  }

  // ----- what the bytes mean -----

  predicate IsScalar(r: int) {
    0 <= r < 0xD800 || 0xE000 <= r <= 0x10FFFF
  }

  /** The number that a byte with a sequence of the given length behind its mark adds to: 0xxxxxxx, 110xxxxx, 1110xxxx,
      11110xxx, and 10xxxxxx for the bytes that follow. */
  predicate IsLead(b: Byte, length: nat) {
    match length
    case 1 => b < 0x80
    case 2 => 0xC0 <= b < 0xE0
    case 3 => 0xE0 <= b < 0xF0
    case 4 => 0xF0 <= b < 0xF8
    case _ => false
  }

  function Payload(b: Byte): (x: nat) {
    if b < 0x80 then b
    else if b < 0xC0 then b - 0x80
    else if b < 0xE0 then b - 0xC0
    else if b < 0xF0 then b - 0xE0
    else b - 0xF0
  }

  /** The payloads read as digits to the base 64, most significant first. */
  function Payloads(bs: Bytes): (x: nat) {
    if bs == [] then 0 else 64 * Payloads(bs[..|bs| - 1]) + Payload(bs[|bs| - 1])
  }

  /** The least number that needs so many bytes. */
  function LeastOf(length: nat): nat {
    match length
    case 2 => 0x80
    case 3 => 0x800
    case 4 => 0x10000
    case _ => 0
  }

  /** bs is the UTF-8 form of r: its first byte tells its length, the others continue it, the payloads make up r, and it
      is no longer than it has to be. */
  predicate IsUtf8(bs: Bytes, r: int) {
    && bs != [] && IsLead(bs[0], |bs|) && (forall k :: 1 <= k < |bs| ==> 0x80 <= bs[k] < 0xC0)
    && Payloads(bs) == r && LeastOf(|bs|) <= r
  }

  lemma Base64(x: nat)
    ensures x == 64 * (x / 64) + x % 64 && x / 4096 == x / 64 / 64 && x / 262144 == x / 4096 / 64
  {
  }

  lemma ShortIsUtf8(x: nat)
    requires x <= 0x7FF
    ensures IsUtf8(Encode(x), x)
  {
    PayloadsAre(Encode(x));
    Base64(x);
  }

  lemma ThreeIsUtf8(x: nat)
    requires 0x800 <= x <= 0xFFFF && IsScalar(x)
    ensures IsUtf8(Encode(x), x)
  {
    hide Payloads;
    PayloadsAre(Encode(x));
    Base64(x);
    Base64(x / 64);
  }

  lemma FourIsUtf8(x: nat)
    requires 0x10000 <= x <= 0x10FFFF
    ensures IsUtf8(Encode(x), x)
  {
    hide Payloads;
    PayloadsAre(Encode(x));
    Base64(x);
    Base64(x / 64);
    Base64(x / 4096);
  }

  /** A scalar value is written in its UTF-8 form, and everything else like the replacement character. */
  lemma EncodeIsUtf8(r: int)
    ensures IsUtf8(Encode(r), if IsScalar(r) then r else 0xFFFD)
  {
    hide IsUtf8;
    var x := if IsScalar(r) then r else 0xFFFD;
    assert Encode(r) == Encode(x) by {
      Replaced(r);
    }
    hide Encode;
    if x <= 0x7FF {
      ShortIsUtf8(x);
    } else if x <= 0xFFFF {
      ThreeIsUtf8(x);
    } else {
      FourIsUtf8(x);
    }
  }

  lemma Replaced(r: int)
    ensures Encode(r) == Encode(if IsScalar(r) then r else 0xFFFD)
  {
  }

  lemma PayloadsAre(bs: Bytes)
    requires 1 <= |bs| <= 4
    ensures Payloads(bs) ==
      (match |bs|
       case 1 => Payload(bs[0])
       case 2 => 64 * Payload(bs[0]) + Payload(bs[1])
       case 3 => 4096 * Payload(bs[0]) + 64 * Payload(bs[1]) + Payload(bs[2])
       case _ => 262144 * Payload(bs[0]) + 4096 * Payload(bs[1]) + 64 * Payload(bs[2]) + Payload(bs[3]))
  {
    hide Payload;
    var a := bs[..|bs| - 1];
    assert Payloads(bs) == 64 * Payloads(a) + Payload(bs[|bs| - 1]);
    if a != [] {
      PayloadsAre(a);
    } else {
      assert Payloads(a) == 0;
    }
  }

  /** There is only one such form, so no two scalar values are written alike. */
  lemma Utf8IsUnique(a: Bytes, b: Bytes, r: int)
    requires IsUtf8(a, r) && IsUtf8(b, r)
    ensures a == b
  {
    PayloadsAre(a);
    PayloadsAre(b);
  }
}
