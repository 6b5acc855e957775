/** Domain names as label lists: ToASCII and ToUnicode of idna/idna.go. */
module Idna {
  import opened Int32
  import opened Options
  import opened Punycode
  import opened PunycodeSpec
  import opened PunycodeDecode
  import opened PunycodeEncode
  import opened PunycodeRoundTrip
  import opened PunycodeBounds
  import opened PunycodeOverflow
  import opened PunycodeVectors

  type Labels = ls: seq<Text> | ls != [] witness [[]]

  const ACE_PREFIX: Text := [0x78, 0x6E, 0x2D, 0x2D]

  // ----- strings.Split and strings.Join on "." -----

  function Split(s: Text): (ls: Labels)
    ensures forall l :: l in ls ==> DOT !in l
  {
    if s == [] then [[]]
    else
      var rest := Split(s[1..]);
      if s[0] == DOT then [[]] + rest else [[s[0]] + rest[0]] + rest[1..]
  }

  function Join(ls: Labels): Text {
    if |ls| == 1 then ls[0] else ls[0] + [DOT] + Join(ls[1..])
  }

  lemma {:induction false} JoinSplit(s: Text)
    ensures Join(Split(s)) == s
  {
    if s != [] {
      JoinSplit(s[1..]);
      var rest := Split(s[1..]);
      if s[0] == DOT {
        assert ([[]] + rest)[1..] == rest;
      } else {
        assert ([[s[0]] + rest[0]] + rest[1..])[1..] == rest[1..];
      }
    }
  }

  lemma {:induction false} SplitLabel(l: Text)
    requires DOT !in l
    ensures Split(l) == [l]
  {
    if l != [] {
      assert l[0] in l && forall x :: x in l[1..] ==> x in l;
      assert [l[0]] + l[1..] == l;
      SplitLabel(l[1..]);
    }
  }

  lemma {:induction false} SplitPrepend(l: Text, s: Text)
    requires DOT !in l
    ensures Split(l + [DOT] + s) == [l] + Split(s)
  {
    var all := l + [DOT] + s;
    if l == [] {
      assert all[1..] == s;
    } else {
      assert l[0] in l && forall x :: x in l[1..] ==> x in l;
      SplitPrepend(l[1..], s);
      assert [l[0]] + l[1..] == l;
      assert all[1..] == l[1..] + [DOT] + s;
    }
  }

  lemma {:induction false} SplitJoin(ls: Labels)
    requires forall l :: l in ls ==> DOT !in l
    ensures Split(Join(ls)) == ls
  {
    if |ls| == 1 {
      SplitLabel(ls[0]);
    } else {
      SplitJoin(ls[1..]);
      SplitPrepend(ls[0], Join(ls[1..]));
    }
  }

  lemma {:induction false} JoinLength(a: Labels, b: Labels)
    requires |a| == |b| && forall k :: 0 <= k < |a| ==> |a[k]| <= |b[k]|
    ensures |Join(a)| <= |Join(b)|
    ensures (exists k :: 0 <= k < |a| && |a[k]| < |b[k]|) ==> |Join(a)| < |Join(b)|
  {
    if |a| > 1 {
      JoinLength(a[1..], b[1..]);
      if k :| 0 < k < |a| && |a[k]| < |b[k]| {
        assert |a[1..][k - 1]| < |b[1..][k - 1]|;
      }
    }
  }

  // ----- what the two functions compute -----

  predicate Ascii(s: Text) {
    forall k :: 0 <= k < |s| ==> s[k] < 0x80
  }

  predicate HasAcePrefix(s: Text) {
    ACE_PREFIX <= s
  }

  ghost function AsciiLabel(l: Text): Result {
    if Ascii(l) then Ok(l)
    else match CodedLabel(l) case None => InvalidLabel case Some(coded) => Ok(ACE_PREFIX + coded)
  }

  ghost function AsciiForm(s: Text): Result {
    var ls := Split(s);
    if Encodable(ls) then Ok(Join(AsciiLabels(ls))) else InvalidLabel
  }

  function UnicodeLabel(l: Text): Result {
    if HasAcePrefix(l) then Decoded(l[|ACE_PREFIX|..]) else Ok(l)
  }

  ghost predicate Encodable(ls: Labels) {
    forall k :: 0 <= k < |ls| ==> AsciiLabel(ls[k]).Ok?
  }

  ghost function AsciiLabels(ls: Labels): (r: Labels)
    requires Encodable(ls)
    ensures |r| == |ls| && forall k :: 0 <= k < |ls| ==> r[k] == AsciiLabel(ls[k]).value
  {
    seq(|ls|, k requires 0 <= k < |ls| => AsciiLabel(ls[k]).value)
  }

  predicate Decodable(ls: Labels) {
    forall k :: 0 <= k < |ls| ==> UnicodeLabel(ls[k]).Ok?
  }

  function UnicodeLabels(ls: Labels): (r: Labels)
    requires Decodable(ls)
    ensures |r| == |ls| && forall k :: 0 <= k < |ls| ==> r[k] == UnicodeLabel(ls[k]).value
  {
    seq(|ls|, k requires 0 <= k < |ls| => UnicodeLabel(ls[k]).value)
  }

  function UnicodeForm(s: Text): Result {
    var ls := Split(s);
    if Decodable(ls) then Ok(Join(UnicodeLabels(ls))) else InvalidLabel
  }

  // ----- the methods -----

  method IsAscii(s: Text) returns (b: bool)
    ensures b == Ascii(s)
  {
    for i := 0 to |s|
      invariant forall k :: 0 <= k < i ==> s[k] < 0x80
    {
      if s[i] >= 0x80 {
        return false;
      }
    }
    return true;
  }

  predicate ContainsAcePrefix(s: Text) {
    exists i :: 0 <= i <= |s| && ACE_PREFIX <= s[i..]
  }

  lemma AsciiCons(x: Rune, l: Text)
    ensures Ascii([x] + l) <==> x < 0x80 && Ascii(l)
  {
    var s := [x] + l;
    assert s[0] == x && forall k :: 0 <= k < |l| ==> s[k + 1] == l[k];
    if Ascii(s) {
      forall k | 0 <= k < |l|
        ensures l[k] < 0x80
      {
        assert l[k] == s[k + 1];
      }
    }
  }

  lemma {:induction false} LabelsAscii(s: Text)
    ensures Ascii(s) <==> forall l :: l in Split(s) ==> Ascii(l)
  {
    if s != [] {
      LabelsAscii(s[1..]);
      AsciiCons(s[0], s[1..]);
      assert s == [s[0]] + s[1..];
      var rest := Split(s[1..]);
      if s[0] == DOT {
        assert forall l :: l in Split(s) <==> l == [] || l in rest;
      } else {
        AsciiCons(s[0], rest[0]);
        assert forall l :: l in rest <==> l == rest[0] || l in rest[1..];
        assert forall l :: l in Split(s) <==> l == [s[0]] + rest[0] || l in rest[1..];
      }
    }
  }

  lemma {:induction false} LabelInside(s: Text, k: nat)
    requires k < |Split(s)|
    ensures exists i :: 0 <= i <= |s| && Split(s)[k] <= s[i..]
    ensures k == 0 ==> Split(s)[0] <= s
  {
    if s == [] {
      assert Split(s)[k] <= s[0..];
    } else {
      var rest := Split(s[1..]);
      if s[0] != DOT && k == 0 {
        LabelInside(s[1..], 0);
        assert s == [s[0]] + s[1..] && s[0..] == s;
      } else if s[0] == DOT && k == 0 {
        assert Split(s)[0] <= s[0..];
      } else {
        var k1 := if s[0] == DOT then k - 1 else k;
        LabelInside(s[1..], k1);
        var i :| 0 <= i <= |s[1..]| && rest[k1] <= s[1..][i..];
        assert s[1..][i..] == s[i + 1..];
      }
    }
  }

  /** ToASCII, with the labels overwritten one by one. */
  method ToASCII(s: Text) returns (r: Result)
    requires |s| < MAX_INT32
    ensures r == AsciiForm(s)
  {
    hide CodedLabel, Split, Join;
    LabelsAscii(s);
    JoinSplit(s);
    var ascii := IsAscii(s);
    if ascii {
      assert AsciiLabels(Split(s)) == Split(s);
      return Ok(s);
    }
    var labels := Split(s);
    for i := 0 to |labels|
      invariant |labels| == |Split(s)|
      invariant forall k :: 0 <= k < i ==> AsciiLabel(Split(s)[k]) == Ok(labels[k])
      invariant forall k :: i <= k < |labels| ==> labels[k] == Split(s)[k]
    {
      var ascii1 := IsAscii(labels[i]);
      if !ascii1 {
        LabelShorter(s, i);
        var a := Encode(ACE_PREFIX, labels[i]);
        if a.InvalidLabel? {
          assert AsciiLabel(Split(s)[i]) == InvalidLabel;
          return a;
        }
        labels := labels[i := a.value];
      }
    }
    assert labels == AsciiLabels(Split(s));
    r := Ok(Join(labels));
  }

  lemma {:induction false} LabelShorter(s: Text, k: nat)
    requires k < |Split(s)|
    ensures |Split(s)[k]| <= |s|
  {
    LabelInside(s, k);
  }

  /** ToUnicode. */
  method ToUnicode(s: Text) returns (r: Result)
    requires |s| < MAX_INT32
    ensures r == UnicodeForm(s)
  {
    hide Decoded, Split, Join;
    JoinSplit(s);
    if !ContainsAcePrefix(s) {
      forall k | 0 <= k < |Split(s)|
        ensures UnicodeLabel(Split(s)[k]) == Ok(Split(s)[k])
      {
        LabelInside(s, k);
      }
      assert UnicodeLabels(Split(s)) == Split(s);
      return Ok(s);
    }
    var labels := Split(s);
    for i := 0 to |labels|
      invariant |labels| == |Split(s)|
      invariant forall k :: 0 <= k < i ==> UnicodeLabel(Split(s)[k]) == Ok(labels[k])
      invariant forall k :: i <= k < |labels| ==> labels[k] == Split(s)[k]
    {
      if HasAcePrefix(labels[i]) {
        LabelShorter(s, i);
        var u := Decode(labels[i][|ACE_PREFIX|..]);
        if u.InvalidLabel? {
          return u;
        }
        labels := labels[i := u.value];
      }
    }
    assert labels == UnicodeLabels(Split(s));
    r := Ok(Join(labels));
  }

  // ----- the round trip of domains -----

  lemma {:induction false} DecodedLength(rest: Text, i: nat, n: int, bias: int, out: seq<int>)
    requires i <= MAX_INT32
    ensures
      var r := Insertions(rest, i, n, bias, out);
      r.Some? ==> |r.value| <= |out| + |rest|
    decreases |rest|
  {
    hide Adapt, ReadInteger;
    if rest != [] {
      var read := ReadInteger(rest, i, 1, BASE, bias);
      if read.Read? && read.i <= MAX_INT32 {
        var x := |out| + 1;
        SplitIndex(read.i, x);
        var n1 := Wrap(n + read.i / x);
        if n1 <= MAX_RUNE && |out| < MAX_OUTPUT {
          DecodedLength(read.rest, read.i % x + 1, n1, Adapt(read.i - i, x, i == 0), Insert(out, read.i % x, n1));
        }
      }
    }
  }

  lemma DecodedNoLonger(e: Text)
    ensures Decoded(e).Ok? ==> |Decoded(e).value| <= |e|
  {
    if e != [] {
      var pos := AfterLastHyphen(e);
      if pos != 1 && pos != |e| {
        DecodedLength(e[pos..], 0, INITIAL_N, INITIAL_BIAS, if pos == 0 then [] else e[..pos - 1]);
      }
    }
  }

  lemma {:induction false} UpToWithin(s: Text, n: int)
    ensures forall x :: x in UpTo(s, n) ==> x in s && x <= n
  {
    if s != [] {
      UpToWithin(s[..|s| - 1], n);
    }
  }

  lemma CodedCharacters(l: Text)
    requires DOT !in l && CodedLabel(l).Some?
    ensures forall x :: x in CodedLabel(l).value ==> x < 0x80 && x != DOT
  {
    hide Coded;
    Start(l);
    CodedAreNot(l, INITIAL_N, 0, INITIAL_N, 0, INITIAL_BIAS);
    UpToWithin(l, INITIAL_N - 1);
  }

  lemma AsciiLabelCharacters(l: Text)
    requires DOT !in l && AsciiLabel(l).Ok?
    ensures DOT !in AsciiLabel(l).value && Ascii(AsciiLabel(l).value)
  {
    if !Ascii(l) {
      CodedCharacters(l);
      forall k | 0 <= k < |AsciiLabel(l).value|
        ensures AsciiLabel(l).value[k] < 0x80
      {
        assert k >= 4 ==> AsciiLabel(l).value[k] in CodedLabel(l).value;
      }
    }
  }

  /** ToASCII's result splits back into its labels and is ASCII throughout. */
  lemma AsciiFormLabels(s: Text)
    requires AsciiForm(s).Ok?
    ensures Split(AsciiForm(s).value) == AsciiLabels(Split(s))
    ensures Ascii(AsciiForm(s).value)
  {
    hide AsciiLabel;
    var ls := AsciiLabels(Split(s));
    forall k | 0 <= k < |ls|
      ensures DOT !in ls[k] && Ascii(ls[k])
    {
      AsciiLabelCharacters(Split(s)[k]);
    }
    SplitJoin(ls);
    LabelsAscii(Join(ls));
  }

  /** A label that ToUnicode gives back after ToASCII: it must not look encoded already, or decode must accept it. */
  ghost predicate Survives(l: Text) {
    if Ascii(l) then !HasAcePrefix(l) else Accepted(l)
  }

  lemma LabelRoundTrip(l: Text)
    requires |l| < MAX_INT32
    ensures Survives(l) ==> AsciiLabel(l).Ok?
    ensures AsciiLabel(l).Ok? ==>
      var r := UnicodeLabel(AsciiLabel(l).value);
      && (Survives(l) ==> r == Ok(l))
      && (!Survives(l) && r.Ok? ==> |r.value| < |l|)
  {
    hide CodedLabel, Decoded, Accepted;
    if Ascii(l) {
      if HasAcePrefix(l) {
        DecodedNoLonger(l[|ACE_PREFIX|..]);
      }
    } else {
      CodedRoundTrip(l);
      if AsciiLabel(l).Ok? {
        assert AsciiLabel(l).value[|ACE_PREFIX|..] == CodedLabel(l).value;
      }
    }
  }

  /** ToUnicode undoes ToASCII on a domain exactly when every label survives. */
  lemma DomainRoundTrip(s: Text)
    requires |s| < MAX_INT32
    ensures AsciiForm(s).Ok? && UnicodeForm(AsciiForm(s).value) == Ok(s) <==> forall l :: l in Split(s) ==> Survives(l)
  {
    hide AsciiLabel, UnicodeLabel, Survives, Split, Join;
    JoinSplit(s);
    var ls := Split(s);
    forall k | 0 <= k < |ls|
      ensures Survives(ls[k]) ==> AsciiLabel(ls[k]).Ok?
      ensures AsciiLabel(ls[k]).Ok? && Survives(ls[k]) ==> UnicodeLabel(AsciiLabel(ls[k]).value) == Ok(ls[k])
      ensures AsciiLabel(ls[k]).Ok? && !Survives(ls[k]) ==> var r := UnicodeLabel(AsciiLabel(ls[k]).value);
        r.Ok? ==> |r.value| < |ls[k]|
    {
      LabelShorter(s, k);
      LabelRoundTrip(ls[k]);
    }
    if AsciiForm(s).Ok? {
      AsciiFormLabels(s);
      var coded := AsciiLabels(ls);
      if forall l :: l in ls ==> Survives(l) {
        assert UnicodeLabels(coded) == ls;
      } else if Decodable(coded) {
        var k :| 0 <= k < |ls| && !Survives(ls[k]);
        var back := UnicodeLabels(coded);
        assert |back[k]| < |ls[k]|;
        JoinLength(back, ls);
      }
    }
  }

  /** In particular for every domain of DNS labels none of whose ASCII labels begins with "xn--". */
  lemma DnsRoundTrip(s: Text)
    requires |s| < MAX_INT32
    requires forall l :: l in Split(s) ==> |l| <= 63
    ensures AsciiForm(s).Ok?
    ensures UnicodeForm(AsciiForm(s).value) == Ok(s) <==> forall l :: l in Split(s) && Ascii(l) ==> !HasAcePrefix(l)
  {
    hide Accepts, CodedLabel, Split;
    DomainRoundTrip(s);
    forall l | l in Split(s)
      ensures Accepted(l) && CodedLabel(l).Some?
    {
      Start(l);
      ShortAccepts(l, INITIAL_N, 0, INITIAL_N, 0, INITIAL_BIAS);
      CodedRoundTrip(l);
    }
  }

  // ----- a domain in characters -----

  /** The label of the German word for books. */
  lemma BooksLabel()
    ensures AsciiLabel(Chars("b\U{00FC}cher")) == Ok(Chars("xn--bcher-kva"))
  {
    hide CodedLabel;
    Books();
    BooksIs();
    assert Chars("b\U{00FC}cher")[1] == 252;
    assert ACE_PREFIX + Chars("bcher-kva") == Chars("xn--bcher-kva");
  }

  /** A domain with that label. */
  lemma BooksDomain()
    ensures AsciiForm(Chars("www.b\U{00FC}cher.de")) == Ok(Chars("www.xn--bcher-kva.de"))
  {
    hide AsciiLabel, Split, Chars;
    BooksLabel();
    var ls: Labels := [Chars("www"), Chars("b\U{00FC}cher"), Chars("de")];
    var coded: Labels := [Chars("www"), Chars("xn--bcher-kva"), Chars("de")];
    PlainLabels();
    Join3(ls[0], ls[1], ls[2]);
    Join3(coded[0], coded[1], coded[2]);
    SplitJoin(ls);
    DomainChars();
    assert Encodable(ls) && AsciiLabels(ls) == coded;
  }

  lemma Join3(a: Text, b: Text, c: Text)
    ensures Join([a, b, c]) == a + [DOT] + b + [DOT] + c
  {
    assert [a, b, c][1..] == [b, c] && [b, c][1..] == [c];
    assert Join([c]) == c;
    assert Join([b, c]) == b + [DOT] + c;
  }

  lemma PlainLabels()
    ensures AsciiLabel(Chars("www")) == Ok(Chars("www")) && AsciiLabel(Chars("de")) == Ok(Chars("de"))
    ensures DOT !in Chars("www") && DOT !in Chars("b\U{00FC}cher") && DOT !in Chars("de")
  {
    hide CodedLabel;
  }

  lemma DomainChars()
    ensures Chars("www.b\U{00FC}cher.de") == Chars("www") + [DOT] + Chars("b\U{00FC}cher") + [DOT] + Chars("de")
    ensures Chars("www.xn--bcher-kva.de") == Chars("www") + [DOT] + Chars("xn--bcher-kva") + [DOT] + Chars("de")
  {
  }
}
