/** The string operations the public suffix code relies on: ordering, searching and splitting at dots. */
module Strings {
  // ----- order -----

  /** Go's s < t on strings: byte order, which on UTF-8 is the order of the characters. */
  predicate Less(s: string, t: string) {
    t != [] && (s == [] || s[0] < t[0] || (s[0] == t[0] && Less(s[1..], t[1..])))
  }

  lemma {:induction false} LessTransitive(s: string, t: string, u: string)
    requires Less(s, t) && Less(t, u)
    ensures Less(s, u)
  {
    if s != [] && s[0] == t[0] == u[0] {
      LessTransitive(s[1..], t[1..], u[1..]);
    }
  }

  lemma {:induction false} LessTotal(s: string, t: string)
    ensures Less(s, t) || s == t || Less(t, s)
    ensures !(Less(s, t) && Less(t, s)) && !(s == t && Less(s, t))
  {
    if s != [] && t != [] && s[0] == t[0] {
      LessTotal(s[1..], t[1..]);
      assert [s[0]] + s[1..] == s && [t[0]] + t[1..] == t;
    }
  }

  /** s comes in front of t: t goes on where s ends, or has the greater character where they first differ. */
  ghost predicate InFrontAt(s: string, t: string, k: nat) {
    k <= |s| && k < |t| && s[..k] == t[..k] && (k < |s| ==> s[k] < t[k])
  }

  lemma {:induction false} LessIs(s: string, t: string)
    ensures Less(s, t) <==> exists k: nat :: InFrontAt(s, t, k)
    decreases |s|
  {
    if Less(s, t) {
      if s == [] || s[0] < t[0] {
        assert InFrontAt(s, t, 0);
      } else {
        LessIs(s[1..], t[1..]);
        var k: nat :| InFrontAt(s[1..], t[1..], k);
        assert s[..k + 1] == [s[0]] + s[1..][..k] && t[..k + 1] == [t[0]] + t[1..][..k];
        assert InFrontAt(s, t, k + 1);
      }
    }
    if k: nat :| InFrontAt(s, t, k) {
      if k > 0 {
        assert s[..k][0] == t[..k][0];
        assert s[1..][..k - 1] == s[..k][1..] && t[1..][..k - 1] == t[..k][1..];
        assert InFrontAt(s[1..], t[1..], k - 1);
        LessIs(s[1..], t[1..]);
      }
    }
  }

  predicate Increasing(ss: seq<string>) {
    forall i, j :: 0 <= i < j < |ss| ==> Less(ss[i], ss[j])
  }

  // ----- substrings -----

  predicate ContainsAt(s: string, t: string, at: int) {
    0 <= at <= |s| - |t| && s[at..at + |t|] == t
  }

  predicate Contains(s: string, t: string) {
    exists at :: 0 <= at <= |s| && ContainsAt(s, t, at)
  }

  /** strings.Index. */
  method Index(s: string, t: string) returns (at: int)
    ensures at >= 0 ==> ContainsAt(s, t, at) && forall k :: 0 <= k < at ==> !ContainsAt(s, t, k)
    ensures at < 0 ==> !Contains(s, t)
  {
    at := 0;
    while at <= |s| - |t|
      invariant 0 <= at
      invariant forall k :: 0 <= k < at ==> !ContainsAt(s, t, k)
    {
      if s[at..at + |t|] == t {
        return;
      }
      at := at + 1;
    }
    at := -1;
  }

  // ----- dots -----

  /** strings.LastIndex(s, "."). */
  function LastDot(s: string): (dot: int)
    ensures -1 <= dot < |s|
    ensures dot >= 0 ==> s[dot] == '.'
    ensures forall k :: dot < k < |s| ==> s[k] != '.'
  {
    if s == [] then -1
    else if s[|s| - 1] == '.' then |s| - 1
    else LastDot(s[..|s| - 1])
  }

  lemma LastDotIs(s: string, dot: int)
    requires -1 <= dot < |s| && (dot >= 0 ==> s[dot] == '.')
    requires forall k :: dot < k < |s| ==> s[k] != '.'
    ensures LastDot(s) == dot
  {
    var d := LastDot(s);
    if dot >= 0 {
      assert s[dot] == '.';
    }
  }

  method ComputeLastDot(s: string) returns (dot: int)
    ensures dot == LastDot(s)
  {
    dot := |s| - 1;
    while dot >= 0 && s[dot] != '.'
      invariant -1 <= dot < |s|
      invariant forall k :: dot < k < |s| ==> s[k] != '.'
    {
      dot := dot - 1;
    }
    LastDotIs(s, dot);
  }

  /** The labels of a domain, the last one first. */
  function Labels(s: string): (ls: seq<string>)
    ensures ls != []
    decreases |s|
  {
    var dot := LastDot(s);
    if dot < 0 then [s] else [s[dot + 1..]] + Labels(s[..dot])
  }

  /** Where the last c labels of s begin; with c == 0, just past a dot after the end. */
  function Offset(s: string, c: nat): (at: int)
    requires c <= |Labels(s)|
    ensures 0 <= at <= |s| + 1 && (c >= 1 ==> at <= |s|)
    decreases c
  {
    if c == 0 then |s| + 1
    else
      var dot := LastDot(s);
      if c == 1 then dot + 1 else Offset(s[..dot], c - 1)
  }

  lemma SliceSwap(s: string, lo: nat, hi: nat)
    requires lo <= hi <= |s|
    ensures s[lo..][..hi - lo] == s[..hi][lo..]
  {
  }

  lemma LabelsStep(s: string)
    ensures LastDot(s) < 0 ==> Labels(s) == [s]
    ensures LastDot(s) >= 0 ==> Labels(s) == [s[LastDot(s) + 1..]] + Labels(s[..LastDot(s)])
  {
  }

  lemma LabelsOfTail(s: string, at: nat)
    requires at <= LastDot(s)
    ensures Labels(s[at..]) == [s[LastDot(s) + 1..]] + Labels(s[..LastDot(s)][at..])
  {
    hide LastDot, Labels;
    var dot, tail := LastDot(s), s[at..];
    LastDotIs(tail, dot - at);
    LabelsStep(tail);
    SliceSwap(s, at, dot);
    assert tail[dot - at + 1..] == s[dot + 1..];
  }

  /** The tail of a domain from that offset consists of its last c labels, and starts after a dot or at the start. */
  lemma {:induction false} OffsetLabels(s: string, c: nat)
    requires 1 <= c <= |Labels(s)|
    ensures Labels(s[Offset(s, c)..]) == Labels(s)[..c]
    ensures Offset(s, c) > 0 ==> c < |Labels(s)| && s[Offset(s, c) - 1] == '.'
    ensures Offset(s, c) == 0 ==> c == |Labels(s)|
    decreases c
  {
    hide LastDot, Labels;
    var dot := LastDot(s);
    LabelsStep(s);
    if c == 1 {
      LastDotIs(s[dot + 1..], -1);
      LabelsStep(s[dot + 1..]);
    } else {
      var at := Offset(s[..dot], c - 1);
      OffsetLabels(s[..dot], c - 1);
      LabelsOfTail(s, at);
    }
  }

  /** Cutting off one label more. */
  lemma {:induction false} OffsetStep(s: string, c: nat)
    requires 1 <= c < |Labels(s)|
    ensures Offset(s, c) >= 1
    ensures
      var rest := s[..Offset(s, c) - 1];
      && Offset(s, c + 1) == LastDot(rest) + 1
      && Labels(rest) == Labels(s)[c..]
    decreases c
  {
    hide LastDot, Labels;
    var dot := LastDot(s);
    LabelsStep(s);
    if c > 1 {
      OffsetStep(s[..dot], c - 1);
      assert s[..dot][..Offset(s, c) - 1] == s[..Offset(s, c) - 1];
    }
  }
}
