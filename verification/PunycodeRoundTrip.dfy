/** decode undoes encode, and exactly when it refuses to. */
module PunycodeRoundTrip {
  import opened Arithmetic
  import opened Int32
  import opened Options
  import opened Punycode
  import opened PunycodeSpec
  import opened PunycodeDecode
  import opened PunycodeEncode

  /** No digit weight of the variable-length integer for q reaches the limit that decode tests. */
  ghost predicate WeightsFit(q: nat, w: nat, k: int, bias: int)
    decreases q
  {
    var t := Threshold(k, bias);
    q < t || (
      QuotientShrinks(q, t);
      MulMonotone(0, BASE - t, w);
      w * (BASE - t) < WEIGHT_LIMIT && WeightsFit((q - t) / (BASE - t), w * (BASE - t), k + BASE, bias))
  }

  /** Reading back one variable-length integer adds its weighted value, or fails exactly when it does not fit. */
  lemma {:induction false} ReadBack(q: nat, i: nat, w: nat, k: int, bias: int, rest: Text)
    requires i <= MAX_INT32
    ensures 0 <= q * w
    ensures ReadInteger(VarInt(q, k, bias) + rest, i, w, k, bias)
         == if WeightsFit(q, w, k, bias) && i + q * w <= MAX_INT32 then Read(i + q * w, rest) else BadInteger
    decreases q
  {
    hide ReadInteger;
    MulMonotone(0, q, w);
    var t := Threshold(k, bias);
    var all := VarInt(q, k, bias) + rest;
    if q < t {
      ReadStep(all, q, i, w, k, bias);
      assert all[1..] == rest;
    } else {
      QuotientShrinks(q, t);
      var u := BASE - t;
      var q1, digit, w1 := (q - t) / u, t + (q - t) % u, w * u;
      MulMonotone(0, digit, w);
      MulMonotone(0, u, w);
      Distribute(q, digit, q1, u, w);
      MulMonotone(0, q1, w1);
      assert all[1..] == VarInt(q1, k + BASE, bias) + rest;
      ReadStep(all, digit, i, w, k, bias);
      if i + digit * w <= MAX_INT32 && w1 < WEIGHT_LIMIT {
        ReadBack(q1, i + digit * w, w1, k + BASE, bias, rest);
      }
    }
  }

  /** What decode tests on the digits that Digits writes: the output length, the sum and the weights. */
  ghost predicate Accepts(s: Text, n: int, j: nat, n0: int, i0: nat, bias: int)
    requires Behind(s, n, j, n0, i0)
    decreases MAX_RUNE + 1 - n, |s| - j
  {
    if n > MAX_RUNE then true
    else if j == |s| then
      BehindNextCharacter(s, n, n0, i0);
      Accepts(s, n + 1, 0, n0, i0, bias)
    else
      BehindNextIndex(s, n, j, n0, i0);
      if s[j] != n then Accepts(s, n, j + 1, n0, i0, bias)
      else
        DeltaNonNegative(s, n, j, n0, i0);
        var delta := Delta(s, n, j, n0, i0);
        && |Seen(s, n, j)| < MAX_OUTPUT
        && i0 + delta <= MAX_INT32
        && WeightsFit(delta, 1, BASE, bias)
        && Accepts(s, n, j + 1, n, Rank(s, n, j) + 1, Adapt(delta, |Seen(s, n, j)| + 1, i0 == 0))
  }

  /** One insertion: the decoder divides the state number back into the character and its place. */
  lemma InsertBack(s: Text, n: int, j: nat, n0: int, i0: nat, bias: int, rest: Text)
    requires Behind(s, n, j, n0, i0) && n <= MAX_RUNE && j < |s| && s[j] == n && i0 <= MAX_INT32
    requires |Seen(s, n, j)| < MAX_INT32
    ensures 0 <= Delta(s, n, j, n0, i0)
    ensures
      var delta := Delta(s, n, j, n0, i0);
      var seen := Seen(s, n, j);
      Insertions(VarInt(delta, BASE, bias) + rest, i0, n0, bias, seen)
      == if |seen| < MAX_OUTPUT && i0 + delta <= MAX_INT32 && WeightsFit(delta, 1, BASE, bias)
         then Insertions(rest, Rank(s, n, j) + 1, n, Adapt(delta, |seen| + 1, i0 == 0), Seen(s, n, j + 1))
         else None
  {
    hide Adapt, VarInt, WeightsFit, UpTo, ReadInteger;
    DeltaNonNegative(s, n, j, n0, i0);
    SeenStep(s, n, j);
    var delta := Delta(s, n, j, n0, i0);
    var x := |Seen(s, n, j)| + 1;
    ReadBack(delta, i0, 1, BASE, bias, rest);
    assert delta * 1 == delta;
    assert i0 + delta == (n - n0) * x + Rank(s, n, j);
    DivModUnique(i0 + delta, x, n - n0, Rank(s, n, j));
    if i0 + delta <= MAX_INT32 && WeightsFit(delta, 1, BASE, bias) {
      InsertionsStep(VarInt(delta, BASE, bias) + rest, i0, n0, bias, Seen(s, n, j), i0 + delta, rest,
                     n - n0, Rank(s, n, j));
    }
  }

  /** From every cursor, replaying the digits rebuilds the label, or fails exactly when one of the tests does. */
  lemma {:induction false} Replay(s: Text, n: int, j: nat, n0: int, i0: nat, bias: int)
    requires Behind(s, n, j, n0, i0) && i0 <= MAX_INT32 && |s| < MAX_INT32
    ensures Insertions(Digits(s, n, j, n0, i0, bias), i0, n0, bias, Seen(s, n, j))
         == if Accepts(s, n, j, n0, i0, bias) then Some(s) else None
    decreases MAX_RUNE + 1 - n, |s| - j
  {
    hide Adapt, VarInt, WeightsFit, UpTo, ReadInteger, Insertions, Delta;
    if n > MAX_RUNE {
      SeenAtEnd(s, n, j);
      InsertionsOfNothing(i0, n0, bias, s);
    } else if j == |s| {
      BehindNextCharacter(s, n, n0, i0);
      SeenAtEnds(s, n);
      Replay(s, n + 1, 0, n0, i0, bias);
    } else {
      BehindNextIndex(s, n, j, n0, i0);
      SeenStep(s, n, j);
      SeenBound(s, n, j);
      if s[j] != n {
        Replay(s, n, j + 1, n0, i0, bias);
      } else {
        DeltaNonNegative(s, n, j, n0, i0);
        var delta := Delta(s, n, j, n0, i0);
        var bias1 := Adapt(delta, |Seen(s, n, j)| + 1, i0 == 0);
        InsertBack(s, n, j, n0, i0, bias, Digits(s, n, j + 1, n, Rank(s, n, j) + 1, bias1));
        Replay(s, n, j + 1, n, Rank(s, n, j) + 1, bias1);
      }
    }
  }

  lemma InsertionsOfNothing(i: nat, n: int, bias: int, out: seq<int>)
    requires i <= MAX_INT32
    ensures Insertions([], i, n, bias, out) == Some(out)
  {
  }

  lemma SeenAtEnd(s: Text, n: int, j: nat)
    requires n > MAX_RUNE && j <= |s|
    ensures Seen(s, n, j) == s
  {
    UpToAll(s[..j], n);
    UpToAll(s[j..], n - 1);
  }

  // ----- whole labels -----

  lemma {:induction false} DigitsAreNot(s: Text, n: int, j: nat, n0: int, i0: nat, bias: int)
    requires Behind(s, n, j, n0, i0)
    ensures HYPHEN !in Digits(s, n, j, n0, i0, bias)
    ensures forall x :: x in Digits(s, n, j, n0, i0, bias) ==> x < 0x80 && x != DOT
    decreases MAX_RUNE + 1 - n, |s| - j
  {
    hide Adapt, VarInt, Delta, UpTo;
    if n > MAX_RUNE {
    } else if j == |s| {
      BehindNextCharacter(s, n, n0, i0);
      DigitsAreNot(s, n + 1, 0, n0, i0, bias);
    } else {
      BehindNextIndex(s, n, j, n0, i0);
      if s[j] != n {
        DigitsAreNot(s, n, j + 1, n0, i0, bias);
      } else {
        DeltaNonNegative(s, n, j, n0, i0);
        DigitsAreNot(s, n, j + 1, n, Rank(s, n, j) + 1,
                     Adapt(Delta(s, n, j, n0, i0), |Seen(s, n, j)| + 1, i0 == 0));
      }
    }
  }

  lemma {:induction false} LastHyphen(basic: Text, digits: Text)
    requires HYPHEN !in digits
    ensures AfterLastHyphen(digits) == 0
    ensures AfterLastHyphen(basic + [HYPHEN] + digits) == |basic| + 1
  {
    var all := basic + [HYPHEN] + digits;
    if digits == [] {
      assert all[|all| - 1] == HYPHEN;
    } else {
      var shorter := digits[..|digits| - 1];
      LastHyphen(basic, shorter);
      assert all[..|all| - 1] == basic + [HYPHEN] + shorter;
      assert all[|all| - 1] == digits[|digits| - 1];
    }
  }

  /** decode accepts what encode writes for s. */
  ghost predicate Accepted(s: Text) {
    Start(s);
    Accepts(s, INITIAL_N, 0, INITIAL_N, 0, INITIAL_BIAS)
  }

  lemma TextOfText(s: Text)
    ensures ToText(s) == s
  {
  }

  /** For every label, decoding its encoding gives the label back, or an error exactly when it is not accepted. */
  lemma RoundTrip(s: Text)
    requires |s| < MAX_INT32
    ensures Decoded(Encoded(s)) == if Accepted(s) then Ok(s) else InvalidLabel
  {
    hide Adapt, VarInt, Insertions, Digits, Accepts, Seen, UpTo, AfterLastHyphen, Behind;
    Start(s);
    var digits := Digits(s, INITIAL_N, 0, INITIAL_N, 0, INITIAL_BIAS);
    Replay(s, INITIAL_N, 0, INITIAL_N, 0, INITIAL_BIAS);
    DigitsAreNot(s, INITIAL_N, 0, INITIAL_N, 0, INITIAL_BIAS);
    LastHyphen(Basic(s), digits);
    InsertionsOfNothing(0, INITIAL_N, INITIAL_BIAS, Basic(s));
    TextOfText(s);
    var encoded := Encoded(s);
    if Basic(s) == [] {
      assert encoded == digits && encoded[0..] == digits;
    } else {
      assert encoded == Basic(s) + [HYPHEN] + digits;
      assert encoded[..|Basic(s)|] == Basic(s) && encoded[|Basic(s)| + 1..] == digits;
    }
  }
}
