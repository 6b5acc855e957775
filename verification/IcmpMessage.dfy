/** Message.Marshal of icmp/message.go. */
module IcmpMessage {
  import opened Options
  import opened Utf8
  import opened IcmpChecksum
  import opened IcmpObjects

  /** Where the length of the message stands in an IPv6 pseudo header, behind two addresses. */
  const LENGTH_AT := 32

  /** A pseudo header, and perhaps what follows it, with the length of the message filled in. */
  function WithLength(b: Bytes, l: nat): (r: Bytes)
    requires |b| >= LENGTH_AT + 4
    ensures |r| == |b|
  {
    b[..LENGTH_AT] + Bytes32(l) + b[LENGTH_AT + 4..]
  }

  /** Behind a pseudo header that has room for the length the message is left alone. */
  lemma LengthInFront(psh: Bytes, message: Bytes, l: nat)
    requires |psh| >= LENGTH_AT + 4
    ensures WithLength(psh + message, l) == WithLength(psh, l) + message
  {
    hide Bytes32;
    var b := psh + message;
    assert b[..LENGTH_AT] == psh[..LENGTH_AT];
    assert b[LENGTH_AT + 4..] == psh[LENGTH_AT + 4..] + message;
  }

  /** b[at] ^= byte(s), b[at+1] ^= byte(s >> 8), with the checksum s of b */
  method PlaceChecksum(b: array<Byte>, at: nat)
    requires at + 2 <= b.Length
    modifies b
    ensures b[..] == Patched(old(b[..]), at, ChecksumOf(old(b[..])))
    ensures forall k :: 0 <= k < b.Length && k != at && k != at + 1 ==> b[k] == old(b[k])
  {
    hide ChecksumOf, XorByte;
    var s := Checksum(b[..]);
    b[at] := XorByte(b[at], Low(s));
    b[at + 1] := XorByte(b[at + 1], Low(s / 256));
  }

  /** The end of Marshal, on a buffer that holds whole. */
  method Sealed(whole: Bytes, at: nat) returns (b: Bytes)
    requires at + 2 <= |whole|
    ensures b == Patched(whole, at, ChecksumOf(whole))
  {
    hide ChecksumOf, Patched;
    var buffer := new Byte[|whole|](i requires 0 <= i < |whole| => whole[i]);
    assert buffer[..] == whole;
    PlaceChecksum(buffer, at);
    b := buffer[..];
  }

  /** How many bytes of the message are lost: a pseudo header for ICMPv4 is cut off, although it was not put in
      front. */
  function Lost(proto: Proto, psh: Option<Bytes>): nat {
    if proto.ICMPv4? && psh.Some? then |psh.value| else 0
  }

  /** The message with a checksum field of zero. */
  function Blank(typ: int, code: int, body: Bytes): (r: Bytes)
    ensures |r| == 4 + |body|
  {
    [Low(typ), Low(code), 0, 0] + body
  }

  /**
   * Marshal, of a type and code and a body that has been marshaled; psh is nil or a pseudo header, of any length. It
   * panics when there is no room for a length, or when an ICMPv4 message is shorter than the pseudo header given.
   */
  method Marshal(proto: Proto, typ: int, code: int, body: Bytes, psh: Option<Bytes>) returns (r: Option<Bytes>)
    ensures r.None? <==>
      psh.Some? && (if proto.ICMPv4? then |psh.value| > |body| else |psh.value| + |body| < LENGTH_AT)
    ensures r.Some? ==> |r.value| == 4 + |body| - Lost(proto, psh)
    ensures r.Some? && (proto.ICMPv6? && psh.Some? ==> |psh.value| >= LENGTH_AT + 4) ==>
      r.value[4..] == body[Lost(proto, psh)..]
    ensures r.Some? && Lost(proto, psh) == 0 && (proto.ICMPv6? && psh.Some? ==> |psh.value| >= LENGTH_AT + 4) ==>
      r.value[0] == Low(typ) && r.value[1] == Low(code)
    ensures proto.ICMPv4? && r.Some? && Lost(proto, psh) == 0 ==> ChecksumOf(r.value) == 0
    ensures proto.ICMPv6? && psh.Some? && |psh.value| >= LENGTH_AT + 4 && |psh.value| % 2 == 0 ==>
      r.Some? && ChecksumOf(WithLength(psh.value, |r.value|) + r.value) == 0
    ensures proto.ICMPv6? && psh.None? ==> r == Some(Blank(typ, code, body))
    ensures proto.ICMPv6? && psh.Some? && r.Some? ==>
      var whole := WithLength(psh.value + Blank(typ, code, body), 4 + |body|);
      r.value == Patched(whole, |psh.value| + 2, ChecksumOf(whole))[|psh.value|..]
  {
    hide ChecksumOf, Patched, WithLength, Bytes32, Low;
    var message := Blank(typ, code, body);
    var front := if proto.ICMPv6? && psh.Some? then psh.value else [];
    var skipped := if psh.Some? then |psh.value| else 0;
    var whole := front + message;
    assert [] + message == message;
    if proto.ICMPv6? {
      if psh.None? {
        return Some(message);
      }
      if |whole| < LENGTH_AT + 4 {
        return None;
      }
      whole := WithLength(whole, |whole| - |psh.value|);
    }
    if skipped + 4 > |whole| {
      return None;
    }
    var b := Sealed(whole, skipped + 2);
    r := Some(b[skipped..]);
    if proto.ICMPv4? {
      PlacedAlone(typ, code, body, skipped, b);
    } else {
      PlacedBehind(typ, code, body, psh.value, b);
    }
  }

  /** An ICMPv4 message with its checksum, of which the first bytes are cut off. */
  lemma PlacedAlone(typ: int, code: int, body: Bytes, skipped: nat, b: Bytes)
    requires skipped <= |body|
    requires var message := Blank(typ, code, body); b == Patched(message, skipped + 2, ChecksumOf(message))
    ensures b[skipped..][4..] == body[skipped..]
    ensures skipped == 0 ==> b[0] == Low(typ) && b[1] == Low(code) && ChecksumOf(b[skipped..]) == 0
  {
    hide ChecksumOf, XorByte;
    if skipped == 0 {
      ZeroField(Blank(typ, code, body), 2);
      assert b[0..] == b;
    }
  }

  /** An ICMPv6 message with the checksum of the pseudo header and the message. */
  lemma PlacedBehind(typ: int, code: int, body: Bytes, psh: Bytes, b: Bytes)
    requires |psh| + 4 + |body| >= LENGTH_AT + 4
    requires var whole := WithLength(psh + Blank(typ, code, body), 4 + |body|);
      b == Patched(whole, |psh| + 2, ChecksumOf(whole))
    ensures |psh| >= LENGTH_AT + 4 ==>
      b[|psh|] == Low(typ) && b[|psh| + 1] == Low(code) && b[|psh|..][4..] == body
    ensures |psh| >= LENGTH_AT + 4 && |psh| % 2 == 0 ==>
      ChecksumOf(WithLength(psh, 4 + |body|) + b[|psh|..]) == 0
  {
    hide ChecksumOf, XorByte, WithLength;
    if |psh| >= LENGTH_AT + 4 {
      var message, ahead := Blank(typ, code, body), WithLength(psh, 4 + |body|);
      LengthInFront(psh, message, 4 + |body|);
      assert b == ahead + b[|psh|..];
      if |psh| % 2 == 0 {
        ZeroField(ahead + message, |psh| + 2);
      }
    }
  }
}
