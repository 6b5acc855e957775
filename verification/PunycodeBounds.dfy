/** Which labels survive the round trip. */
module PunycodeBounds {
  import opened Arithmetic
  import opened Punycode
  import opened PunycodeSpec
  import opened PunycodeDecode
  import opened PunycodeEncode
  import opened PunycodeRoundTrip

  /** Up to this length every label survives. */
  const SAFE_LABEL := 156
  /** No integer below this bound needs a digit whose weight decode refuses, unless the bias is WORST_BIAS. */
  const SAFE_DELTA := 181_998_811
  /** Under this bias the integers at and above WORST_DELTA are refused. */
  const WORST_BIAS := 122
  const WORST_DELTA := 172_616_011

  // ----- the least integer that decode refuses -----

  /** The least integer whose digits from weight w on include one whose weight decode refuses. */
  function Least(w: nat, k: int, bias: int): (q: nat)
    requires w >= 1
    decreases WEIGHT_LIMIT - w
  {
    var t := Threshold(k, bias);
    MulMonotone(10, BASE - t, w);
    if w * (BASE - t) >= WEIGHT_LIMIT then t
    else
      var q1 := Least(w * (BASE - t), k + BASE, bias);
      MulMonotone(0, BASE - t, q1);
      t + (BASE - t) * q1
  }

  lemma WeightsStep(q: nat, w: nat, k: int, bias: int, t: int, q1: nat)
    requires t == Threshold(k, bias) && t <= q && q1 == (q - t) / (BASE - t)
    ensures 0 <= w * (BASE - t)
    ensures WeightsFit(q, w, k, bias)
        <==> w * (BASE - t) < WEIGHT_LIMIT && WeightsFit(q1, w * (BASE - t), k + BASE, bias)
  {
    MulMonotone(0, BASE - t, w);
  }

  /** Exactly the integers below the least one have weights that decode takes. */
  lemma {:induction false} FitsBelowLeast(q: nat, w: nat, k: int, bias: int)
    requires w >= 1
    ensures WeightsFit(q, w, k, bias) <==> q < Least(w, k, bias)
    decreases q
  {
    hide WeightsFit;
    var t := Threshold(k, bias);
    if q < t {
      SmallFits(q, w, k, bias);
      LeastStep(w, k, bias, t);
    } else {
      QuotientShrinks(q, t);
      var q1, u := (q - t) / (BASE - t), BASE - t;
      WeightsStep(q, w, k, bias, t, q1);
      LeastStep(w, k, bias, t);
      MulMonotone(10, u, w);
      if w * u < WEIGHT_LIMIT {
        FitsBelowLeast(q1, w * u, k + BASE, bias);
        QuotientLess(q - t, u, Least(w * u, k + BASE, bias));
      }
    }
  }

  lemma SmallFits(q: nat, w: nat, k: int, bias: int)
    requires q < Threshold(k, bias)
    ensures WeightsFit(q, w, k, bias)
  {
  }

  lemma QuotientLess(x: nat, u: int, l: nat)
    requires u >= 1
    ensures x / u < l <==> x < u * l
  {
    if x < u * l {
      QuotientBelow(x, u, l);
    } else {
      QuotientAtLeast(x, u, l);
    }
  }

  lemma LeastStep(w: nat, k: int, bias: int, t: int)
    requires w >= 1 && t == Threshold(k, bias)
    ensures 1 <= w * (BASE - t)
    ensures 0 <= t <= Least(w, k, bias)
    ensures Least(w, k, bias) ==
      if w * (BASE - t) >= WEIGHT_LIMIT then t else t + (BASE - t) * Least(w * (BASE - t), k + BASE, bias)
  {
    MulMonotone(10, BASE - t, w);
    if w * (BASE - t) < WEIGHT_LIMIT {
      MulMonotone(0, BASE - t, Least(w * (BASE - t), k + BASE, bias));
    }
  }

  /** Least once the threshold is constant: each weight is ten times the last. */
  function Tail(w: nat): nat {
    if w >= 5965233 then 26
    else if w >= 596524 then 286
    else if w >= 59653 then 2886
    else if w >= 5966 then 28886
    else if w >= 597 then 288886
    else if w >= 60 then 2888886
    else 28888886
  }

  lemma {:induction false} TailIs(w: nat, k: int, bias: int)
    requires k - bias >= T_MAX && w >= 6
    ensures Least(w, k, bias) == Tail(w)
    decreases WEIGHT_LIMIT - w
  {
    hide Least;
    LeastStep(w, k, bias, T_MAX);
    if w * 10 < WEIGHT_LIMIT {
      TailIs(w * 10, k + BASE, bias);
    }
  }

  /** A digit of threshold t in front of the constant ones. */
  lemma LastStep(w: nat, k: int, bias: int, t: int)
    requires t == Threshold(k, bias) && k + BASE - bias >= T_MAX && w >= 1
    ensures 6 <= w * (BASE - t)
    ensures w * (BASE - t) < WEIGHT_LIMIT ==> Least(w, k, bias) == t + (BASE - t) * Tail(w * (BASE - t))
    ensures w * (BASE - t) >= WEIGHT_LIMIT ==> Least(w, k, bias) == t
  {
    hide Least;
    LeastStep(w, k, bias, t);
    MulMonotone(10, BASE - t, w);
    if w * (BASE - t) < WEIGHT_LIMIT {
      TailIs(w * (BASE - t), k + BASE, bias);
    }
  }

  function Pow35(a: nat): (w: nat)
    ensures w >= 1
  {
    if a == 0 then 1 else 35 * Pow35(a - 1)
  }

  lemma PowStep(a: nat)
    requires a > 0
    ensures Pow35(a) == 35 * Pow35(a - 1)
  {
  }

  lemma Powers()
    ensures Pow35(0) == 1 && Pow35(1) == 35 && Pow35(2) == 1225 && Pow35(3) == 42875
    ensures Pow35(4) == 1500625 && Pow35(5) == 52521875
  {
    assert Pow35(2) == 1225;
    assert Pow35(4) == 1500625;
  }

  /** The digits in front of the threshold's rise each take one off and divide by 35. */
  lemma {:induction false} FirstSteps(a: nat, c: nat, bias: int)
    requires a <= c <= 5 && BASE * c <= bias
    ensures Least(Pow35(a), BASE * (a + 1), bias) * 34 + 1
         == (Least(Pow35(c), BASE * (c + 1), bias) * 34 + 1) * Pow35(c - a)
    decreases c - a
  {
    hide Least, Pow35;
    if a == c {
      assert Pow35(0) == 1 by {
        Powers();
      }
    } else {
      var l, m := Least(Pow35(a), BASE * (a + 1), bias), Least(Pow35(a + 1), BASE * (a + 2), bias);
      FirstStep(a, bias);
      FirstSteps(a + 1, c, bias);
      PowStep(c - a);
      OneMore(l, m, Least(Pow35(c), BASE * (c + 1), bias) * 34 + 1, Pow35(c - a - 1));
    }
  }

  lemma OneMore(l: int, m: int, x: int, y: int)
    requires l == 1 + 35 * m && m * 34 + 1 == x * y
    ensures l * 34 + 1 == x * (35 * y)
  {
    assert x * (35 * y) == 35 * (x * y);
  }

  lemma FirstStep(a: nat, bias: int)
    requires a < 5 && BASE * (a + 1) <= bias
    ensures Least(Pow35(a), BASE * (a + 1), bias) == 1 + 35 * Least(Pow35(a + 1), BASE * (a + 2), bias)
  {
    hide Least;
    Powers();
    LeastStep(Pow35(a), BASE * (a + 1), bias, 1);
  }

  /** How small the least integer can be behind c digits of threshold 1. */
  lemma RiseAt(c: nat, bias: int)
    requires c <= 5 && BASE * c <= bias <= MAX_BIAS && bias < BASE * (c + 1)
    ensures var l := Least(Pow35(c), BASE * (c + 1), bias);
      && (c == 0 ==> l >= 288_888_886) && (c == 1 ==> l >= 5_199_966) && (c == 2 ==> l >= 288_886)
      && (c == 3 ==> if bias == WORST_BIAS then l == 4_026 else l >= 4_311)
      && (c == 4 ==> l >= 276) && (c == 5 ==> l >= 18)
  {
    hide Least;
    Powers();
    var k := BASE * (c + 1);
    var t := Threshold(k, bias);
    LastStep(Pow35(c), k, bias, t);
    assert 10 <= BASE - t <= 35;
  }

  /** Under every bias there is, and exactly at the worst one. */
  lemma LeastIs(bias: int)
    requires 0 <= bias <= MAX_BIAS
    ensures bias == WORST_BIAS ==> Least(1, BASE, bias) == WORST_DELTA
    ensures bias != WORST_BIAS ==> Least(1, BASE, bias) >= SAFE_DELTA
  {
    hide Least;
    Powers();
    var c := bias / BASE;
    FirstSteps(0, c, bias);
    RiseAt(c, bias);
    var l := Least(Pow35(c), BASE * (c + 1), bias);
    assert Least(Pow35(0), BASE, bias) * 34 + 1 == (l * 34 + 1) * Pow35(c);
  }

  // ----- the worst bias comes late -----

  /** The worst bias takes a big integer to adapt to. */
  lemma AdaptTailLow(v: nat)
    requires v < 25 * Pow35(3)
    ensures AdaptTail(v, 0) < WORST_BIAS
  {
    Powers();
    AdaptTailAtMost(v, 0, 3);
  }

  lemma {:induction false} AdaptTailAtMost(v: nat, k: nat, steps: nat)
    requires v < 25 * Pow35(steps) && steps <= 3
    ensures AdaptTail(v, k) <= k + BASE * steps + 13
    decreases steps
  {
    hide AdaptTail;
    if v <= 455 {
      QuotientBelow(BASE * v, v + SKEW, if v < 25 then 14 else 34);
      AdaptTailEnds(v, k);
      assert steps == 0 ==> v < 25;
    } else {
      assert v / 35 < 25 * Pow35(steps - 1);
      AdaptTailStep(v, k);
      AdaptTailAtMost(v / 35, k + BASE, steps - 1);
    }
  }

  lemma AdaptTailEnds(v: nat, k: nat)
    requires v <= 455
    ensures AdaptTail(v, k) == k + BASE * v / (v + SKEW)
  {
  }

  lemma AdaptTailStep(v: nat, k: nat)
    requires v > 455
    ensures AdaptTail(v, k) == AdaptTail(v / 35, k + BASE)
  {
  }

  lemma DampedAtMost(delta: nat, h: nat, first: bool)
    requires h >= 1
    ensures Damped(delta, h, first) * 4 <= 4 * delta
    ensures h >= 2 ==> Damped(delta, h, first) * 4 <= 3 * delta
  {
    var d := if first then delta / DAMP else delta / 2;
    if h >= 2 {
      QuotientLess(d, h, d / 2 + 1);
      MulMonotone(2, h, d / 2 + 1);
    }
  }

  /** Once the bias is the worst one the decoder has come past 9000 characters. */
  lemma WorstIsLate(s: Text, n: int, j: nat, n0: int, i0: nat)
    requires Behind(s, n, j, n0, i0) && j < |s| <= SAFE_LABEL && s[j] == n <= MAX_RUNE
    ensures 0 <= Delta(s, n, j, n0, i0)
    ensures Adapt(Delta(s, n, j, n0, i0), |Seen(s, n, j)| + 1, i0 == 0) == WORST_BIAS ==> n - n0 >= 9000
  {
    hide Adapt, Damped, UpTo;
    Powers();
    DeltaNonNegative(s, n, j, n0, i0);
    SeenBound(s, n, j);
    var h, delta := |Seen(s, n, j)| + 1, Delta(s, n, j, n0, i0);
    DampedAtMost(delta, h, i0 == 0);
    if Adapt(delta, h, i0 == 0) == WORST_BIAS && n - n0 < 9000 {
      AdaptIsTail(delta, h, i0 == 0);
      if Damped(delta, h, i0 == 0) < 25 * Pow35(3) {
        AdaptTailLow(Damped(delta, h, i0 == 0));
        assert false;
      }
      MulBounds(n - n0, h, 9000, if h == 1 then 1 else SAFE_LABEL);
    }
  }

  lemma AdaptIsTail(delta: nat, h: nat, first: bool)
    requires h >= 1
    ensures Adapt(delta, h, first) == AdaptTail(Damped(delta, h, first), 0)
  {
  }

  // ----- short labels -----

  /** Every integer that a short label needs is below the least that decode refuses. */
  lemma DeltaIsSafe(s: Text, n: int, j: nat, n0: int, i0: nat, bias: int)
    requires Behind(s, n, j, n0, i0) && j < |s| <= SAFE_LABEL && s[j] == n <= MAX_RUNE
    requires 0 <= bias <= MAX_BIAS && (bias == WORST_BIAS ==> n0 >= INITIAL_N + 9000)
    ensures |Seen(s, n, j)| < SAFE_LABEL
    ensures 0 <= Delta(s, n, j, n0, i0) <= i0 + Delta(s, n, j, n0, i0) < SAFE_DELTA
    ensures WeightsFit(Delta(s, n, j, n0, i0), 1, BASE, bias)
  {
    hide WeightsFit, UpTo;
    DeltaNonNegative(s, n, j, n0, i0);
    SeenBound(s, n, j);
    var most := if bias == WORST_BIAS then MAX_RUNE - INITIAL_N - 9000 else MAX_RUNE - INITIAL_N;
    MulBounds(n - n0, |Seen(s, n, j)| + 1, most, SAFE_LABEL);
    LeastIs(bias);
    FitsBelowLeast(Delta(s, n, j, n0, i0), 1, BASE, bias);
  }

  lemma {:induction false} ShortAccepts(s: Text, n: int, j: nat, n0: int, i0: nat, bias: int)
    requires Behind(s, n, j, n0, i0) && |s| <= SAFE_LABEL && 0 <= bias <= MAX_BIAS
    requires bias == WORST_BIAS ==> n0 >= INITIAL_N + 9000
    ensures Accepts(s, n, j, n0, i0, bias)
    decreases MAX_RUNE + 1 - n, |s| - j
  {
    hide Adapt, WeightsFit, Delta, UpTo;
    if n > MAX_RUNE {
    } else if j == |s| {
      BehindNextCharacter(s, n, n0, i0);
      ShortAccepts(s, n + 1, 0, n0, i0, bias);
    } else {
      BehindNextIndex(s, n, j, n0, i0);
      if s[j] != n {
        ShortAccepts(s, n, j + 1, n0, i0, bias);
      } else {
        var delta, h := Delta(s, n, j, n0, i0), |Seen(s, n, j)|;
        DeltaIsSafe(s, n, j, n0, i0, bias);
        AdaptBound(delta, h + 1, i0 == 0);
        WorstIsLate(s, n, j, n0, i0);
        ShortAccepts(s, n, j + 1, n, Rank(s, n, j) + 1, Adapt(delta, h + 1, i0 == 0));
      }
    }
  }

  /** Every label of at most 156 characters, so every DNS label, survives the round trip. */
  lemma ShortRoundTrip(s: Text)
    requires |s| <= SAFE_LABEL
    ensures Decoded(Encoded(s)) == Ok(s)
  {
    Start(s);
    ShortAccepts(s, INITIAL_N, 0, INITIAL_N, 0, INITIAL_BIAS);
    RoundTrip(s);
  }

  lemma {:induction false} AcceptsLength(s: Text, n: int, j: nat, n0: int, i0: nat, bias: int)
    requires Behind(s, n, j, n0, i0) && |Seen(s, n, j)| < |s| && Accepts(s, n, j, n0, i0, bias)
    ensures |s| <= 1024
    decreases MAX_RUNE + 1 - n, |s| - j
  {
    hide Adapt, WeightsFit, Delta, UpTo;
    if n > MAX_RUNE {
      SeenAtEnd(s, n, j);
    } else if j == |s| {
      BehindNextCharacter(s, n, n0, i0);
      SeenAtEnds(s, n);
      AcceptsLength(s, n + 1, 0, n0, i0, bias);
    } else {
      BehindNextIndex(s, n, j, n0, i0);
      SeenStep(s, n, j);
      if s[j] != n {
        AcceptsLength(s, n, j + 1, n0, i0, bias);
      } else if |Seen(s, n, j + 1)| < |s| {
        DeltaNonNegative(s, n, j, n0, i0);
        AcceptsLength(s, n, j + 1, n, Rank(s, n, j) + 1,
                      Adapt(Delta(s, n, j, n0, i0), |Seen(s, n, j)| + 1, i0 == 0));
      }
    }
  }

  /** decode refuses every label over 1024 characters that is not plain ASCII. */
  lemma LongLabelsRejected(s: Text)
    requires Basic(s) != s && Accepted(s)
    ensures |s| <= 1024
  {
    Start(s);
    SeenBound(s, INITIAL_N, 0);
    UpToAll(s, INITIAL_N - 1);
    AcceptsLength(s, INITIAL_N, 0, INITIAL_N, 0, INITIAL_BIAS);
  }

  // ----- a label that does not survive -----

  lemma AcceptsSkipIndices(s: Text, n: int, j: nat, m: nat, n0: int, i0: nat, bias: int)
    requires Behind(s, n, j, n0, i0) && n <= MAX_RUNE && j <= m <= |s|
    requires forall k :: j <= k < m ==> s[k] != n
    ensures Behind(s, n, m, n0, i0)
    ensures Accepts(s, n, j, n0, i0, bias) == Accepts(s, n, m, n0, i0, bias)
    decreases m - j
  {
    if j < m {
      BehindNextIndex(s, n, j, n0, i0);
      AcceptsSkipIndices(s, n, j + 1, m, n0, i0, bias);
    }
  }

  lemma AcceptsSkip(s: Text, n: int, m: int, n0: int, i0: nat, bias: int)
    requires Behind(s, n, 0, n0, i0) && n <= m <= MAX_RUNE
    requires forall k :: 0 <= k < |s| ==> !(n <= s[k] < m)
    ensures Behind(s, m, 0, n0, i0)
    ensures Accepts(s, n, 0, n0, i0, bias) == Accepts(s, m, 0, n0, i0, bias)
    decreases m - n
  {
    if n < m {
      AcceptsSkipIndices(s, n, 0, |s|, n0, i0, bias);
      BehindNextCharacter(s, n, n0, i0);
      AcceptsSkip(s, n + 1, m, n0, i0, bias);
    }
  }

  /** A label of k letters and the first character that is not ASCII. */
  function LetterRun(k: nat): (s: Text)
    ensures |s| == k + 1 && s[k] == 0x80 && forall i :: 0 <= i < k ==> s[i] == 0x61
  {
    seq(k, _ => 0x61) + [0x80]
  }

  lemma RunSeen(k: nat)
    ensures Rank(LetterRun(k), 0x80, k) == |Seen(LetterRun(k), 0x80, k)| == k
  {
    var s := LetterRun(k);
    UpToAll(s[..k], 0x80);
    assert s[k..] == [0x80] && s[k..][..0] == [];
    assert UpTo(s[k..], 0x7F) == [];
  }

  /** The check for the length of the output, by itself: a label of 1024 characters comes back, one of 1025 does not. */
  lemma LengthIsSharp(k: nat)
    requires k + 1 < 0x7FFF_FFFF
    ensures |LetterRun(k)| == k + 1
    ensures Decoded(Encoded(LetterRun(k))) == if k < 1024 then Ok(LetterRun(k)) else InvalidLabel
  {
    hide Behind, WeightsFit, Adapt, Seen, Rank, LetterRun, Decoded, Encoded, Least;
    var s := LetterRun(k);
    Start(s);
    RunSeen(k);
    AcceptsSkipIndices(s, 0x80, 0, k, 0x80, 0, INITIAL_BIAS);
    BehindNextIndex(s, 0x80, k, 0x80, 0);
    DeltaNonNegative(s, 0x80, k, 0x80, 0);
    if k < 1024 {
      LeastIs(INITIAL_BIAS);
      FitsBelowLeast(k, 1, BASE, INITIAL_BIAS);
      RunEnds(k, Adapt(k, k + 1, true));
    }
    RoundTrip(s);
  }

  lemma RunEnds(k: nat, bias: int)
    requires Behind(LetterRun(k), 0x80, k + 1, 0x80, k + 1)
    ensures Accepts(LetterRun(k), 0x80, k + 1, 0x80, k + 1, bias)
  {
    hide Behind, LetterRun;
    var s := LetterRun(k);
    AcceptsNext(s, 0x80, 0x80, k + 1, bias);
    AcceptsSkip(s, 0x81, MAX_RUNE, 0x80, k + 1, bias);
    AcceptsSkipIndices(s, MAX_RUNE, 0, |s|, 0x80, k + 1, bias);
    AcceptsNext(s, MAX_RUNE, 0x80, k + 1, bias);
  }

  /** A label that makes the worst bias come as soon as it can. */
  function RejectedLabel(): (s: Text)
    ensures |s| == SAFE_LABEL + 1 && s[0] == 0x80 && s[1] == 13783 && s[2] == MAX_RUNE
    ensures forall k :: 3 <= k < |s| ==> s[k] == 0x61
  {
    [0x80, 13783, MAX_RUNE] + seq(SAFE_LABEL - 2, _ => 0x61)
  }

  lemma UpToHead(x: Text, n: int)
    requires |x| <= 3
    ensures |UpTo(x, n)| == (if |x| > 0 && x[0] <= n then 1 else 0) + (if |x| > 1 && x[1] <= n then 1 else 0)
                          + (if |x| > 2 && x[2] <= n then 1 else 0)
  {
    if x != [] {
      UpToHead(x[..|x| - 1], n);
    }
  }

  /** The characters of the rejected label from j on that are at most n. */
  lemma UpToRest(j: nat, n: int)
    requires j <= 3 && n >= 0x61
    ensures var s := RejectedLabel();
      |UpTo(s[j..], n)| == |UpTo(s[j..3], n)| + (SAFE_LABEL - 2)
  {
    var s := RejectedLabel();
    UpToSplit(s[j..], 3 - j, n);
    assert s[j..][..3 - j] == s[j..3] && s[j..][3 - j..] == s[3..];
    UpToAll(s[3..], n);
  }

  lemma RejectedSeen(n: int, j: nat)
    requires j <= 3 && n > 0x61
    ensures var s := RejectedLabel();
      && Rank(s, n, j) == |UpTo(s[..j], n)|
      && |Seen(s, n, j)| == |UpTo(s[..j], n)| + |UpTo(s[j..3], n - 1)| + (SAFE_LABEL - 2)
  {
    UpToRest(j, n - 1);
  }

  lemma RejectedNext(j: nat, n: int, m: int, n0: int, i0: nat, bias: int)
    requires var s := RejectedLabel(); j <= 2 && Behind(s, n, j, n0, i0) && INITIAL_N <= n < m <= MAX_RUNE
    requires forall k :: 0 <= k < 3 ==>
      !(n < RejectedLabel()[k] < m) && (j <= k ==> RejectedLabel()[k] != n) && (k < j ==> RejectedLabel()[k] != m)
    ensures var s := RejectedLabel();
      && Behind(s, m, j, n0, i0) && Accepts(s, n, j, n0, i0, bias) == Accepts(s, m, j, n0, i0, bias)
  {
    hide Behind, Accepts;
    var s := RejectedLabel();
    AcceptsSkipIndices(s, n, j, |s|, n0, i0, bias);
    AcceptsNext(s, n, n0, i0, bias);
    AcceptsSkip(s, n + 1, m, n0, i0, bias);
    AcceptsSkipIndices(s, m, 0, j, n0, i0, bias);
  }

  lemma AcceptsNext(s: Text, n: int, n0: int, i0: nat, bias: int)
    requires Behind(s, n, |s|, n0, i0) && n <= MAX_RUNE
    ensures Behind(s, n + 1, 0, n0, i0)
    ensures Accepts(s, n, |s|, n0, i0, bias) == Accepts(s, n + 1, 0, n0, i0, bias)
  {
    BehindNextCharacter(s, n, n0, i0);
  }

  /** What an accepted insertion leaves to be accepted. */
  lemma AcceptsInsertion(s: Text, n: int, j: nat, n0: int, i0: nat, bias: int, delta: int, h: nat, rank: nat)
    requires Behind(s, n, j, n0, i0) && n <= MAX_RUNE && j < |s| && s[j] == n
    requires h == |Seen(s, n, j)| + 1 && rank == Rank(s, n, j) && delta == (n - n0) * h + rank - i0
    requires Accepts(s, n, j, n0, i0, bias)
    ensures delta >= 0 && WeightsFit(delta, 1, BASE, bias)
    ensures Behind(s, n, j + 1, n, rank + 1) && Accepts(s, n, j + 1, n, rank + 1, Adapt(delta, h, i0 == 0))
  {
    hide WeightsFit, Adapt, UpTo, Behind;
    DeltaNonNegative(s, n, j, n0, i0);
    BehindNextIndex(s, n, j, n0, i0);
  }

  lemma RejectedBiases()
    ensures Adapt(0, 155, true) == 0 && Adapt(2_130_180, 156, false) == WORST_BIAS
  {
    hide AdaptTail;
    assert Damped(0, 155, true) == 0 && Damped(2_130_180, 156, false) == 1_071_917;
    AdaptTailEnds(0, 0);
    AdaptTailStep(1_071_917, 0);
    AdaptTailStep(30_626, 36);
    AdaptTailStep(875, 72);
    AdaptTailEnds(25, 108);
  }

  lemma RejectedCounts()
    ensures var s := RejectedLabel();
      && Rank(s, 0x80, 0) == 0 && |Seen(s, 0x80, 0)| == 154
      && Rank(s, 13783, 1) == 1 && |Seen(s, 13783, 1)| == 155
      && Rank(s, MAX_RUNE, 2) == 2 && |Seen(s, MAX_RUNE, 2)| == 156
  {
    hide UpTo;
    var s := RejectedLabel();
    RejectedSeen(0x80, 0);
    RejectedSeen(13783, 1);
    RejectedSeen(MAX_RUNE, 2);
    UpToHead(s[..0], 0x80);
    UpToHead(s[0..3], 0x7F);
    UpToHead(s[..1], 13783);
    UpToHead(s[1..3], 13782);
    UpToHead(s[..2], MAX_RUNE);
    UpToHead(s[2..3], MAX_RUNE - 1);
  }

  /** A label of 157 characters that encode writes and decode refuses: the weight of its last digit is too big. */
  lemma SomeLabelIsRejected()
    ensures |RejectedLabel()| == SAFE_LABEL + 1
    ensures Decoded(Encoded(RejectedLabel())) == InvalidLabel
  {
    hide RejectedLabel, Accepts, Adapt, WeightsFit, Rank, Seen, Encoded, Decoded;
    var s := RejectedLabel();
    Start(s);
    RejectedCounts();
    RejectedBiases();
    if Accepted(s) {
      AcceptsInsertion(s, 0x80, 0, 0x80, 0, INITIAL_BIAS, 0, 155, 0);
      RejectedNext(1, 0x80, 13783, 0x80, 1, 0);
      AcceptsInsertion(s, 13783, 1, 0x80, 1, 0, 2_130_180, 156, 1);
      RejectedNext(2, 13783, MAX_RUNE, 13783, 2, WORST_BIAS);
      AcceptsInsertion(s, MAX_RUNE, 2, 13783, 2, WORST_BIAS, 172_751_496, 157, 2);
      LeastIs(WORST_BIAS);
      FitsBelowLeast(172_751_496, 1, BASE, WORST_BIAS);
    }
    RoundTrip(s);
  }
}
