/** What becomes of encode's overflow tests, and the round trip of every label that it encodes. */
module PunycodeOverflow {
  import opened Arithmetic
  import opened Int32
  import opened Options
  import opened Punycode
  import opened PunycodeSpec
  import opened PunycodeDecode
  import opened PunycodeEncode
  import opened PunycodeRoundTrip
  import opened PunycodeBounds

  /** Up to this many characters no delta leaves int32. */
  const MAX_EXACT := 1927
  /** Up to this many characters no delta that leaves int32 is missed. */
  const MAX_SEEN := 3855

  // ----- when deltas fit -----

  /** Every number of states between two insertions is an int32. */
  ghost predicate Fits(s: Text, n: int, j: nat, n0: int, i0: nat)
    requires Behind(s, n, j, n0, i0)
    decreases MAX_RUNE + 1 - n, |s| - j
  {
    if n > MAX_RUNE then true
    else if j == |s| then
      BehindNextCharacter(s, n, n0, i0);
      Fits(s, n + 1, 0, n0, i0)
    else
      BehindNextIndex(s, n, j, n0, i0);
      if s[j] != n then Fits(s, n, j + 1, n0, i0)
      else Delta(s, n, j, n0, i0) <= MAX_INT32 && Fits(s, n, j + 1, n, Rank(s, n, j) + 1)
  }

  ghost predicate LabelFits(s: Text) {
    Start(s);
    Fits(s, INITIAL_N, 0, INITIAL_N, 0)
  }

  lemma KeptIsDelta(s: Text, n: int, j: nat, n0: int, i0: nat)
    requires Behind(s, n, j, n0, i0) && n <= MAX_RUNE && j < |s| && s[j] == n && |s| < MAX_INT32
    ensures 0 <= Delta(s, n, j, n0, i0)
    ensures Delta(s, n, j, n0, i0) <= MAX_INT32 || |s| <= MAX_SEEN ==>
      Kept(s, n, j, n0, i0) == Delta(s, n, j, n0, i0)
  {
    hide UpTo;
    DeltaNonNegative(s, n, j, n0, i0);
    SeenBound(s, n, j);
    var h := |Seen(s, n, j)|;
    if n0 < n {
      MulMonotone(1, n - n0, h + 1);
      if |s| <= MAX_SEEN {
        MulBounds(n - n0, h + 1, MAX_RUNE - INITIAL_N, MAX_SEEN);
      }
      SmallModulo((n - n0) * (h + 1) - i0);
    }
  }

  /** As long as everything fits encode writes the reference digits; otherwise it gives up, unless a label of more than
      3855 characters makes a product wrap around to a positive value. */
  lemma {:induction false} CodedIs(s: Text, n: int, j: nat, n0: int, i0: nat, bias: int)
    requires Behind(s, n, j, n0, i0) && |s| < MAX_INT32
    ensures Fits(s, n, j, n0, i0) ==> Coded(s, n, j, n0, i0, bias) == Some(Digits(s, n, j, n0, i0, bias))
    ensures !Fits(s, n, j, n0, i0) && |s| <= MAX_SEEN ==> Coded(s, n, j, n0, i0, bias) == None
    decreases MAX_RUNE + 1 - n, |s| - j
  {
    hide Adapt, VarInt, Delta, Kept, UpTo;
    if n > MAX_RUNE {
    } else if j == |s| {
      BehindNextCharacter(s, n, n0, i0);
      CodedIs(s, n + 1, 0, n0, i0, bias);
    } else {
      BehindNextIndex(s, n, j, n0, i0);
      if s[j] != n {
        CodedIs(s, n, j + 1, n0, i0, bias);
      } else {
        KeptIsDelta(s, n, j, n0, i0);
        var delta := Delta(s, n, j, n0, i0);
        CodedIs(s, n, j + 1, n, Rank(s, n, j) + 1, Adapt(delta, |Seen(s, n, j)| + 1, i0 == 0));
      }
    }
  }

  /** What fits is encoded as section 6.3 of RFC 3492 says, and up to 3855 characters nothing else is encoded. */
  lemma CodedLabelIs(s: Text)
    requires |s| < MAX_INT32
    ensures LabelFits(s) ==> CodedLabel(s) == Some(Encoded(s))
    ensures !LabelFits(s) && |s| <= MAX_SEEN ==> CodedLabel(s) == None
  {
    Start(s);
    CodedIs(s, INITIAL_N, 0, INITIAL_N, 0, INITIAL_BIAS);
  }

  lemma {:induction false} ShortFits(s: Text, n: int, j: nat, n0: int, i0: nat)
    requires Behind(s, n, j, n0, i0) && |s| <= MAX_EXACT
    ensures Fits(s, n, j, n0, i0)
    decreases MAX_RUNE + 1 - n, |s| - j
  {
    hide Delta, UpTo;
    if n > MAX_RUNE {
    } else if j == |s| {
      BehindNextCharacter(s, n, n0, i0);
      ShortFits(s, n + 1, 0, n0, i0);
    } else {
      BehindNextIndex(s, n, j, n0, i0);
      if s[j] != n {
        ShortFits(s, n, j + 1, n0, i0);
      } else {
        ShortDelta(s, n, j, n0, i0);
        ShortFits(s, n, j + 1, n, Rank(s, n, j) + 1);
      }
    }
  }

  lemma ShortDelta(s: Text, n: int, j: nat, n0: int, i0: nat)
    requires Behind(s, n, j, n0, i0) && n <= MAX_RUNE && j < |s| <= MAX_EXACT && s[j] == n
    ensures Delta(s, n, j, n0, i0) <= MAX_INT32
  {
    hide UpTo;
    SeenBound(s, n, j);
    MulBounds(n - n0, |Seen(s, n, j)| + 1, MAX_RUNE - INITIAL_N, MAX_EXACT);
  }

  /** encode fails for no label of up to 1927 characters. */
  lemma ShortLabelFits(s: Text)
    requires |s| <= MAX_EXACT
    ensures LabelFits(s) && CodedLabel(s) == Some(Encoded(s))
  {
    Start(s);
    ShortFits(s, INITIAL_N, 0, INITIAL_N, 0);
    CodedLabelIs(s);
  }

  lemma {:induction false} AcceptsFits(s: Text, n: int, j: nat, n0: int, i0: nat, bias: int)
    requires Behind(s, n, j, n0, i0) && Accepts(s, n, j, n0, i0, bias)
    ensures Fits(s, n, j, n0, i0)
    decreases MAX_RUNE + 1 - n, |s| - j
  {
    hide Adapt, WeightsFit, Delta, UpTo;
    if n > MAX_RUNE {
    } else if j == |s| {
      BehindNextCharacter(s, n, n0, i0);
      AcceptsFits(s, n + 1, 0, n0, i0, bias);
    } else {
      BehindNextIndex(s, n, j, n0, i0);
      if s[j] != n {
        AcceptsFits(s, n, j + 1, n0, i0, bias);
      } else {
        DeltaNonNegative(s, n, j, n0, i0);
        AcceptsFits(s, n, j + 1, n, Rank(s, n, j) + 1,
                    Adapt(Delta(s, n, j, n0, i0), |Seen(s, n, j)| + 1, i0 == 0));
      }
    }
  }

  // ----- the bounds are sharp -----

  function Letters(k: nat): (s: Text)
    ensures |s| == k + 1 && s[k] == MAX_RUNE && forall i :: 0 <= i < k ==> s[i] == 0x61
  {
    seq(k, _ => 0x61) + [MAX_RUNE]
  }

  lemma {:induction false} SkipsTo(s: Text, n: int, j: nat, m: nat, n0: int, i0: nat, bias: int)
    requires Behind(s, n, j, n0, i0) && n <= MAX_RUNE && j <= m <= |s|
    requires forall k :: j <= k < m ==> s[k] != n
    ensures Behind(s, n, m, n0, i0)
    ensures Fits(s, n, j, n0, i0) == Fits(s, n, m, n0, i0)
    ensures Digits(s, n, j, n0, i0, bias) == Digits(s, n, m, n0, i0, bias)
    ensures Coded(s, n, j, n0, i0, bias) == Coded(s, n, m, n0, i0, bias)
    decreases m - j
  {
    if j < m {
      BehindNextIndex(s, n, j, n0, i0);
      SkipsTo(s, n, j + 1, m, n0, i0, bias);
    }
  }

  lemma {:induction false} Skips(s: Text, n: int, m: int, n0: int, i0: nat, bias: int)
    requires Behind(s, n, 0, n0, i0) && n <= m <= MAX_RUNE
    requires forall k :: 0 <= k < |s| ==> !(n <= s[k] < m)
    ensures Behind(s, m, 0, n0, i0)
    ensures Fits(s, n, 0, n0, i0) == Fits(s, m, 0, n0, i0)
    ensures Digits(s, n, 0, n0, i0, bias) == Digits(s, m, 0, n0, i0, bias)
    ensures Coded(s, n, 0, n0, i0, bias) == Coded(s, m, 0, n0, i0, bias)
    decreases m - n
  {
    hide Behind, Fits, Digits, Coded;
    if n < m {
      SkipsTo(s, n, 0, |s|, n0, i0, bias);
      NextCharacter(s, n, n0, i0, bias);
      Skips(s, n + 1, m, n0, i0, bias);
    }
  }

  lemma NextCharacter(s: Text, n: int, n0: int, i0: nat, bias: int)
    requires Behind(s, n, |s|, n0, i0) && n <= MAX_RUNE
    ensures Behind(s, n + 1, 0, n0, i0)
    ensures Fits(s, n, |s|, n0, i0) == Fits(s, n + 1, 0, n0, i0)
    ensures Digits(s, n, |s|, n0, i0, bias) == Digits(s, n + 1, 0, n0, i0, bias)
    ensures Coded(s, n, |s|, n0, i0, bias) == Coded(s, n + 1, 0, n0, i0, bias)
  {
    BehindNextCharacter(s, n, n0, i0);
  }

  lemma LettersSeen(k: nat)
    ensures var s := Letters(k);
      && Rank(s, MAX_RUNE, k) == |Seen(s, MAX_RUNE, k)| == k
      && Rank(s, MAX_RUNE, k + 1) == k + 1 && (Basic(s) == [] <==> k == 0)
  {
    var s := Letters(k);
    UpToAll(s[..k], MAX_RUNE);
    UpToAll(s[..k], INITIAL_N - 1);
    UpToAll(s, MAX_RUNE);
    assert s[..k + 1] == s && s[k..] == [MAX_RUNE] && s[k..][..0] == [];
    assert UpTo(s[k..], MAX_RUNE - 1) == UpTo(s[k..], INITIAL_N - 1) == [];
    UpToSplit(s, k, INITIAL_N - 1);
  }

  /** The one integer behind k letters. */
  lemma LettersEnd(k: nat, bias: int)
    requires Behind(Letters(k), MAX_RUNE, k + 1, MAX_RUNE, k + 1)
    ensures Fits(Letters(k), MAX_RUNE, k + 1, MAX_RUNE, k + 1)
    ensures Digits(Letters(k), MAX_RUNE, k + 1, MAX_RUNE, k + 1, bias) == []
    ensures Coded(Letters(k), MAX_RUNE, k + 1, MAX_RUNE, k + 1, bias) == Some([])
  {
    NextCharacter(Letters(k), MAX_RUNE, MAX_RUNE, k + 1, bias);
  }

  lemma LettersInsert(k: nat, delta: int)
    requires Behind(Letters(k), MAX_RUNE, k, INITIAL_N, 0) && delta == (MAX_RUNE - INITIAL_N) * (k + 1)
    ensures var s := Letters(k);
      && (Fits(s, MAX_RUNE, k, INITIAL_N, 0) <==> delta + k <= MAX_INT32)
      && delta >= 0 && Digits(s, MAX_RUNE, k, INITIAL_N, 0, INITIAL_BIAS) == VarInt(delta + k, BASE, INITIAL_BIAS)
      && Coded(s, MAX_RUNE, k, INITIAL_N, 0, INITIAL_BIAS) ==
        if delta % TWO_32 + k > MAX_INT32 then None else Some(VarInt(delta % TWO_32 + k, BASE, INITIAL_BIAS))
  {
    hide Adapt, VarInt, UpTo, Letters, Seen;
    var s := Letters(k);
    LettersSeen(k);
    BehindNextIndex(s, MAX_RUNE, k, INITIAL_N, 0);
    LettersEnd(k, Adapt(delta + k, k + 1, true));
    LettersEnd(k, Adapt(delta % TWO_32 + k, k + 1, true));
    assert VarInt(delta + k, BASE, INITIAL_BIAS) + [] == VarInt(delta + k, BASE, INITIAL_BIAS);
    assert VarInt(delta % TWO_32 + k, BASE, INITIAL_BIAS) + [] == VarInt(delta % TWO_32 + k, BASE, INITIAL_BIAS);
  }

  /** A label of k letters and U+10FFFF: the integer that stands for the last character, and what encode makes of it. */
  lemma LettersCode(k: nat)
    ensures var s := Letters(k); var delta := (MAX_RUNE - INITIAL_N) * (k + 1);
      var start := Basic(s) + if k == 0 then [] else [HYPHEN];
      && (LabelFits(s) <==> delta + k <= MAX_INT32)
      && delta >= 0 && Encoded(s) == start + VarInt(delta + k, BASE, INITIAL_BIAS)
      && CodedLabel(s) ==
        if delta % TWO_32 + k > MAX_INT32 then None
        else Some(start + VarInt(delta % TWO_32 + k, BASE, INITIAL_BIAS))
  {
    hide VarInt, Digits, Fits, Coded, Seen, Behind;
    var s := Letters(k);
    Start(s);
    LettersSeen(k);
    Skips(s, INITIAL_N, MAX_RUNE, INITIAL_N, 0, INITIAL_BIAS);
    SkipsTo(s, MAX_RUNE, 0, k, INITIAL_N, 0, INITIAL_BIAS);
    LettersInsert(k, (MAX_RUNE - INITIAL_N) * (k + 1));
  }

  /** With one character more than the bounds allow there is a label that encode refuses, and one whose delta wraps
      around unseen, so that encode writes something else than the reference. */
  lemma BoundsAreSharp()
    ensures var s := Letters(MAX_EXACT); |s| == MAX_EXACT + 1 && CodedLabel(s) == None
    ensures var s := Letters(MAX_SEEN);
      |s| == MAX_SEEN + 1 && CodedLabel(s).Some? && CodedLabel(s).value != Encoded(s)
  {
    hide VarInt, CodedLabel, Encoded, LabelFits, Letters, Basic;
    LettersCode(MAX_EXACT);
    LettersCode(MAX_SEEN);
    FirstDigit(555_007);
    FirstDigit(4_295_522_303);
    var start := Basic(Letters(MAX_SEEN)) + [HYPHEN];
    var v, w := VarInt(555_007, BASE, INITIAL_BIAS), VarInt(4_295_522_303, BASE, INITIAL_BIAS);
    assert (start + v)[|start|] == v[0] && (start + w)[|start|] == w[0];
  }

  lemma FirstDigit(q: nat)
    requires q >= 1
    ensures VarInt(q, BASE, INITIAL_BIAS)[0] == EncodeDigit(1 + (q - 1) % 35)
  {
  }

  // ----- the round trip -----

  lemma {:induction false} CodedAreNot(s: Text, n: int, j: nat, n0: int, i0: nat, bias: int)
    requires Behind(s, n, j, n0, i0) && Coded(s, n, j, n0, i0, bias).Some?
    ensures forall x :: x in Coded(s, n, j, n0, i0, bias).value ==> x < 0x80 && x != DOT && x != HYPHEN
    decreases MAX_RUNE + 1 - n, |s| - j
  {
    hide Adapt, VarInt, Kept, UpTo;
    if n > MAX_RUNE {
    } else if j == |s| {
      BehindNextCharacter(s, n, n0, i0);
      CodedAreNot(s, n + 1, 0, n0, i0, bias);
    } else {
      BehindNextIndex(s, n, j, n0, i0);
      if s[j] != n {
        CodedAreNot(s, n, j + 1, n0, i0, bias);
      } else {
        KeptNonNegative(s, n, j, n0, i0);
        CodedAreNot(s, n, j + 1, n, Rank(s, n, j) + 1,
                    Adapt(Kept(s, n, j, n0, i0), |Seen(s, n, j)| + 1, i0 == 0));
      }
    }
  }

  /** Whatever encode has written, decode inserts as many characters as were left, or gives up. */
  lemma {:induction false} CodedInserts(s: Text, n: int, j: nat, n0: int, i0: nat, bias: int, i: nat, n1: int,
                                        out: seq<int>)
    requires Behind(s, n, j, n0, i0) && Coded(s, n, j, n0, i0, bias).Some? && |s| < MAX_INT32
    requires i <= MAX_INT32 && (i == 0 <==> i0 == 0) && |out| == |Seen(s, n, j)|
    ensures var r := Insertions(Coded(s, n, j, n0, i0, bias).value, i, n1, bias, out);
      r.Some? && |out| < |s| ==> |s| <= MAX_OUTPUT
    decreases MAX_RUNE + 1 - n, |s| - j
  {
    hide Adapt, VarInt, Kept, UpTo, Insertions;
    if n > MAX_RUNE {
      SeenAtEnd(s, n, j);
    } else if j == |s| {
      BehindNextCharacter(s, n, n0, i0);
      SeenAtEnds(s, n);
      CodedInserts(s, n + 1, 0, n0, i0, bias, i, n1, out);
    } else {
      BehindNextIndex(s, n, j, n0, i0);
      SeenStep(s, n, j);
      SeenBound(s, n, j);
      if s[j] != n {
        CodedInserts(s, n, j + 1, n0, i0, bias, i, n1, out);
      } else {
        KeptNonNegative(s, n, j, n0, i0);
        var delta := Kept(s, n, j, n0, i0);
        var bias1 := Adapt(delta, |out| + 1, i0 == 0);
        var rest := Coded(s, n, j + 1, n, Rank(s, n, j) + 1, bias1).value;
        var i2, n2, out2 := InsertsOne(delta, rest, i, n1, bias, out);
        CodedInserts(s, n, j + 1, n, Rank(s, n, j) + 1, bias1, i2, n2, out2);
      }
    }
  }

  lemma InsertsOne(delta: nat, rest: Text, i: nat, n: int, bias: int, out: seq<int>)
    returns (i1: nat, n1: int, out1: seq<int>)
    requires i <= MAX_INT32 && |out| < MAX_INT32
    ensures 0 < i1 <= MAX_INT32 && |out1| == |out| + 1
    ensures Insertions(VarInt(delta, BASE, bias) + rest, i, n, bias, out).Some? ==>
      && |out| < MAX_OUTPUT
      && Insertions(VarInt(delta, BASE, bias) + rest, i, n, bias, out)
      == Insertions(rest, i1, n1, Adapt(delta, |out| + 1, i == 0), out1)
  {
    hide Adapt, VarInt, WeightsFit, Insert, Wrap, ReadInteger, Insertions;
    var q, at := (i + delta) / (|out| + 1), (i + delta) % (|out| + 1);
    i1, n1, out1 := at + 1, Wrap(n + q), Insert(out, at, Wrap(n + q));
    ReadBack(delta, i, 1, BASE, bias, rest);
    assert delta * 1 == delta;
    if WeightsFit(delta, 1, BASE, bias) && i + delta <= MAX_INT32 {
      InsertionsStep(VarInt(delta, BASE, bias) + rest, i, n, bias, out, i + delta, rest, q, at);
    } else {
      ReadFails(VarInt(delta, BASE, bias) + rest, i, n, bias, out);
    }
  }

  lemma ReadFails(rest: Text, i: nat, n: int, bias: int, out: seq<int>)
    requires i <= MAX_INT32 && rest != [] && ReadInteger(rest, i, 1, BASE, bias) == BadInteger
    ensures Insertions(rest, i, n, bias, out) == None
  {
  }

  lemma LongCodedRejected(s: Text)
    requires |s| < MAX_INT32 && CodedLabel(s).Some? && |s| > MAX_OUTPUT && Basic(s) != s
    ensures Decoded(CodedLabel(s).value) == InvalidLabel
  {
    hide Insertions, Coded, UpTo, AfterLastHyphen, Behind;
    Start(s);
    var digits := Coded(s, INITIAL_N, 0, INITIAL_N, 0, INITIAL_BIAS).value;
    CodedAreNot(s, INITIAL_N, 0, INITIAL_N, 0, INITIAL_BIAS);
    CodedInserts(s, INITIAL_N, 0, INITIAL_N, 0, INITIAL_BIAS, 0, INITIAL_N, Basic(s));
    InsertionsOfNothing(0, INITIAL_N, INITIAL_BIAS, Basic(s));
    LastHyphen(Basic(s), digits);
    SeenBound(s, INITIAL_N, 0);
    UpToAll(s, INITIAL_N - 1);
    var encoded := CodedLabel(s).value;
    if Basic(s) == [] {
      assert encoded == digits && encoded[0..] == digits;
    } else {
      assert encoded == Basic(s) + [HYPHEN] + digits;
      assert encoded[..|Basic(s)|] == Basic(s) && encoded[|Basic(s)| + 1..] == digits;
    }
  }

  /** What decode accepts is encoded, and whatever encode writes for a label is decoded to that label or refused. */
  lemma CodedRoundTrip(s: Text)
    requires |s| < MAX_INT32
    ensures Accepted(s) ==> CodedLabel(s).Some?
    ensures CodedLabel(s).Some? ==> Decoded(CodedLabel(s).value) == if Accepted(s) then Ok(s) else InvalidLabel
  {
    hide Decoded, Encoded, Accepts, Fits, CodedLabel;
    Start(s);
    CodedLabelIs(s);
    if Accepted(s) {
      AcceptsFits(s, INITIAL_N, 0, INITIAL_N, 0, INITIAL_BIAS);
    }
    if LabelFits(s) {
      RoundTrip(s);
    } else if CodedLabel(s).Some? {
      if Basic(s) == s {
        UpToAll(s, INITIAL_N - 1);
        BasicFits(s);
        assert false;
      }
      LongCodedRejected(s);
    }
  }

  lemma BasicFits(s: Text)
    requires forall k :: 0 <= k < |s| ==> s[k] < INITIAL_N
    ensures LabelFits(s)
  {
    Start(s);
    Skips(s, INITIAL_N, MAX_RUNE, INITIAL_N, 0, INITIAL_BIAS);
    SkipsTo(s, MAX_RUNE, 0, |s|, INITIAL_N, 0, INITIAL_BIAS);
    NextCharacter(s, MAX_RUNE, INITIAL_N, 0, INITIAL_BIAS);
  }
}
