/** encode of idna/punycode.go. */
module PunycodeEncode {
  import opened Arithmetic
  import opened Int32
  import opened Options
  import opened Punycode
  import opened PunycodeSpec

  const TWO_32 := 0x1_0000_0000

  // ----- what encode writes -----

  /** The delta that encode counts at the cursor (n, j). It adds (m - n) * (h + 1) modulo 2^32 when it moves on to n,
      and then one for each smaller character up to j. */
  function Kept(s: Text, n: int, j: nat, n0: int, i0: nat): int
    requires j <= |s|
  {
    if n0 == n then Delta(s, n, j, n0, i0)
    else ((n - n0) * (|Seen(s, n, j)| + 1) - i0) % TWO_32 + Rank(s, n, j)
  }

  lemma KeptNonNegative(s: Text, n: int, j: nat, n0: int, i0: nat)
    requires Behind(s, n, j, n0, i0)
    ensures 0 <= Kept(s, n, j, n0, i0)
  {
    DeltaNonNegative(s, n, j, n0, i0);
  }

  /** The digits that encode writes in int32 from a cursor on; none if it meets a negative delta. */
  ghost function Coded(s: Text, n: int, j: nat, n0: int, i0: nat, bias: int): Option<Text>
    requires Behind(s, n, j, n0, i0)
    decreases MAX_RUNE + 1 - n, |s| - j
  {
    if n > MAX_RUNE then Some([])
    else if j == |s| then
      BehindNextCharacter(s, n, n0, i0);
      Coded(s, n + 1, 0, n0, i0, bias)
    else
      BehindNextIndex(s, n, j, n0, i0);
      if s[j] != n then Coded(s, n, j + 1, n0, i0, bias)
      else
        KeptNonNegative(s, n, j, n0, i0);
        var delta := Kept(s, n, j, n0, i0);
        if delta > MAX_INT32 then None
        else Then(VarInt(delta, BASE, bias),
                  Coded(s, n, j + 1, n, Rank(s, n, j) + 1, Adapt(delta, |Seen(s, n, j)| + 1, i0 == 0)))
  }

  function Then(output: Text, rest: Option<Text>): Option<Text> {
    if rest.None? then None else Some(output + rest.value)
  }

  /** What encode writes for s, in int32. */
  ghost function CodedLabel(s: Text): Option<Text> {
    Start(s);
    var b := Basic(s);
    Then(if b == [] then [] else b + [HYPHEN], Coded(s, INITIAL_N, 0, INITIAL_N, 0, INITIAL_BIAS))
  }

  // ----- skipping characters that do not occur -----

  lemma UpToSkip(s: Text, n: int, m: int)
    requires n <= m && forall k :: 0 <= k < |s| ==> !(n <= s[k] < m)
    ensures UpTo(s, n - 1) == UpTo(s, m - 1)
  {
    if s != [] {
      UpToSkip(s[..|s| - 1], n, m);
    }
  }

  lemma UpToAll(s: Text, n: int)
    ensures |UpTo(s, n)| == |s| <==> forall k :: 0 <= k < |s| ==> s[k] <= n
    ensures |UpTo(s, n)| == |s| ==> UpTo(s, n) == s
  {
    if s != [] {
      var front, last := s[..|s| - 1], s[|s| - 1];
      UpToAll(front, n);
      assert s == front + [last];
      assert forall k :: 0 <= k < |front| ==> front[k] == s[k];
      assert s[|front|] == last;
    }
  }

  lemma SkipIndices(s: Text, n: int, j: nat, n0: int, i0: nat, bias: int)
    requires Behind(s, n, j, n0, i0) && n <= MAX_RUNE
    requires forall k :: j <= k < |s| ==> s[k] != n
    ensures Behind(s, n + 1, 0, n0, i0)
    ensures Coded(s, n, j, n0, i0, bias) == Coded(s, n + 1, 0, n0, i0, bias)
    decreases |s| - j
  {
    if j == |s| {
      BehindNextCharacter(s, n, n0, i0);
    } else {
      BehindNextIndex(s, n, j, n0, i0);
      SkipIndices(s, n, j + 1, n0, i0, bias);
    }
  }

  /** A character that does not occur contributes nothing, so encode may jump to the least one that does. */
  lemma SkipCharacters(s: Text, n: int, m: int, n0: int, i0: nat, bias: int)
    requires Behind(s, n, 0, n0, i0) && n <= m <= MAX_RUNE + 1
    requires forall k :: 0 <= k < |s| ==> !(n <= s[k] < m)
    ensures Behind(s, m, 0, n0, i0) && Seen(s, m, 0) == Seen(s, n, 0)
    ensures Coded(s, n, 0, n0, i0, bias) == Coded(s, m, 0, n0, i0, bias)
    decreases m - n
  {
    hide Coded, Seen, Behind, UpTo;
    if n < m {
      SkipIndices(s, n, 0, n0, i0, bias);
      SeenAtEnds(s, n - 1);
      SeenAtEnds(s, n);
      UpToSkip(s, n, n + 1);
      SkipCharacters(s, n + 1, m, n0, i0, bias);
    }
  }

  lemma NothingLeft(s: Text, n: int, n0: int, i0: nat, bias: int)
    requires Behind(s, n, 0, n0, i0) && n <= MAX_RUNE + 1 && |Seen(s, n, 0)| == |s|
    ensures Coded(s, n, 0, n0, i0, bias) == Some([])
  {
    SeenAtEnds(s, n - 1);
    UpToAll(s, n - 1);
    SkipCharacters(s, n, MAX_RUNE + 1, n0, i0, bias);
  }

  // ----- bounds -----

  lemma SeenBound(s: Text, n: int, j: nat)
    requires j <= |s|
    ensures Rank(s, n, j) <= |Seen(s, n, j)| <= |s|
    ensures (exists k :: j <= k < |s| && s[k] >= n) ==> |Seen(s, n, j)| < |s|
  {
    UpToAll(s[j..], n - 1);
    forall k | j <= k < |s| && s[k] >= n
      ensures |Seen(s, n, j)| < |s|
    {
      assert s[j..][k - j] == s[k];
    }
  }

  /** While nothing is skipped delta counts characters. */
  lemma SmallKept(s: Text, n: int, j: nat, i0: nat)
    requires Behind(s, n, j, n, i0)
    ensures 0 <= Kept(s, n, j, n, i0) <= |s|
  {
    SeenBound(s, n, j);
    DeltaNonNegative(s, n, j, n, i0);
  }

  /** A delta that is too big at the cursor is too big at the next insertion of n. */
  lemma {:induction false} Overflows(s: Text, n: int, j: nat, n0: int, i0: nat, bias: int)
    requires Behind(s, n, j, n0, i0) && n0 < n <= MAX_RUNE && exists k :: j <= k < |s| && s[k] == n
    requires Kept(s, n, j, n0, i0) > MAX_INT32
    ensures Coded(s, n, j, n0, i0, bias) == None
    decreases |s| - j
  {
    hide Adapt, VarInt, UpTo;
    BehindNextIndex(s, n, j, n0, i0);
    SeenStep(s, n, j);
    if s[j] != n {
      Overflows(s, n, j + 1, n0, i0, bias);
    }
  }

  // ----- the loops -----

  /** The largest q left when the loop has reached k. */
  ghost function Cap(k: int): nat {
    if k <= BASE then MAX_INT32 else Cap(k - BASE) / 10
  }

  lemma CapVanishes(k: int)
    requires k % BASE == 0 && k >= 11 * BASE
    ensures Cap(k) == 0
  {
    if k == 11 * BASE {
      assert Cap(2 * BASE) == 214748364;
      assert Cap(4 * BASE) == 2147483;
      assert Cap(6 * BASE) == 21474;
      assert Cap(8 * BASE) == 214;
      assert Cap(10 * BASE) == 2;
    } else {
      CapVanishes(k - BASE);
    }
  }

  /** One digit of encode's inner loop: the digit is one, and q and k move on as VarInt says. */
  lemma DigitStep(q: nat, k: int, t: int)
    requires T_MIN <= t <= T_MAX && t <= q <= Cap(k) && k % BASE == 0 && BASE <= k <= 11 * BASE
    ensures 0 <= t + (q - t) % (BASE - t) < BASE
    ensures 0 <= (q - t) / (BASE - t) <= Cap(k + BASE) && (q - t) / (BASE - t) < q
    ensures k <= 10 * BASE
  {
    if k == 11 * BASE {
      CapVanishes(k);
    }
    QuotientShrinks(q, t);
  }

  /** The arithmetic of one digit, in int32. */
  method SplitDigit(q: int, k: int, t: int, ghost bias: int) returns (digit: int, q1: int)
    requires t == Threshold(k, bias) && t <= q <= Cap(k) && q <= MAX_INT32
    requires k % BASE == 0 && BASE <= k <= 11 * BASE
    ensures 0 <= digit < BASE && 0 <= q1 <= Cap(k + BASE) && q1 < q && k <= 10 * BASE
    ensures VarInt(q, k, bias) == [EncodeDigit(digit)] + VarInt(q1, k + BASE, bias)
  {
    DigitStep(q, k, t);
    digit := Wrap(t + Wrap(q - t) % Wrap(BASE - t));
    q1 := Wrap(q - t) / Wrap(BASE - t);
  }

  lemma LastDigit(q: nat, k: int, t: int, bias: int)
    requires t == Threshold(k, bias)
    ensures q < t ==> VarInt(q, k, bias) == [EncodeDigit(q)]
  {
  }

  /** The inner loop of encode: every digit handed to encodeDigit is one, so it does not panic. */
  method AppendInteger(output0: Text, delta: int, bias: int) returns (output: Text)
    requires 0 <= delta <= MAX_INT32 && 0 <= bias <= MAX_BIAS
    ensures output == output0 + VarInt(delta, BASE, bias)
  {
    hide VarInt, EncodeDigit;
    output := output0;
    var q, k := delta, BASE;
    while true
      invariant 0 <= q <= MAX_INT32 && q <= Cap(k) && k % BASE == 0 && BASE <= k <= 11 * BASE
      invariant output + VarInt(q, k, bias) == output0 + VarInt(delta, BASE, bias)
      decreases q
    {
      var t := Wrap(k - bias);
      if t < T_MIN {
        t := T_MIN;
      } else if t > T_MAX {
        t := T_MAX;
      }
      LastDigit(q, k, t, bias);
      if q < t {
        break;
      }
      var digit, q1 := SplitDigit(q, k, t, bias);
      output := output + [EncodeDigit(digit)];
      q := q1;
      k := Wrap(k + BASE);
    }
    output := output + [EncodeDigit(q)];
  }

  /** The first loop of encode: the ASCII characters are copied and the others counted. */
  method CopyBasic(prefix: Text, s: Text) returns (output: Text, b: int, remaining: int)
    requires |s| < MAX_INT32
    ensures output == prefix + Basic(s) && b == |Basic(s)| && remaining == |s| - b
  {
    output, b, remaining := prefix, 0, 0;
    var j := 0;
    while j < |s|
      invariant 0 <= j <= |s| && 0 <= b <= j
      invariant output == prefix + Basic(s[..j]) && b == |Basic(s[..j])| && remaining == j - b
    {
      assert s[..j + 1][..j] == s[..j];
      if s[j] < 0x80 {
        b := Wrap(b + 1);
        output := output + [s[j]];
      } else {
        remaining := Wrap(remaining + 1);
      }
      j := j + 1;
    }
    assert s[..|s|] == s;
  }

  /** The least character that is at least n. */
  method LeastFrom(s: Text, n: int) returns (m: int)
    requires exists k :: 0 <= k < |s| && s[k] >= n
    ensures n <= m <= MAX_RUNE && m in s
    ensures forall k :: 0 <= k < |s| ==> !(n <= s[k] < m)
  {
    m := 0x7fffffff;
    var j := 0;
    while j < |s|
      invariant 0 <= j <= |s|
      invariant m == 0x7fffffff || (n <= m <= MAX_RUNE && m in s[..j])
      invariant forall k :: 0 <= k < j ==> !(n <= s[k] < m)
    {
      if m > s[j] && s[j] >= n {
        m := s[j];
      }
      j := j + 1;
    }
  }

  /** delta is what the reference counts, and what is still to be written completes the wanted result. */
  ghost predicate Exact(s: Text, n: int, j: nat, n0: int, i0: nat, delta: int, bias: int, output: Text,
                        want: Option<Text>)
    requires Behind(s, n, j, n0, i0)
  {
    delta == Kept(s, n, j, n0, i0) && Then(output, Coded(s, n, j, n0, i0, bias)) == want
  }

  /** What each pass of encode keeps; (n0, i0) is where the decoder will stand after the digits written so far. */
  ghost predicate Inv(s: Text, n: int, j: nat, n0: int, i0: nat, h: int, b: int, remaining: int) {
    && Behind(s, n, j, n0, i0)
    && h == |Seen(s, n, j)| && remaining == |s| - h
    && 0 <= b <= h && (h == b <==> i0 == 0)
  }

  lemma PassSkips(s: Text, n: int, j: nat, n0: int, i0: nat, delta: int, bias: int, h: int, b: int, remaining: int,
                  output: Text, want: Option<Text>)
    requires j < |s| < MAX_INT32 && s[j] != n && n <= MAX_RUNE
    requires Inv(s, n, j, n0, i0, h, b, remaining) && Exact(s, n, j, n0, i0, delta, bias, output, want)
    requires n0 == n || exists k :: j <= k < |s| && s[k] == n
    ensures Inv(s, n, j + 1, n0, i0, h, b, remaining)
    ensures s[j] > n ==> Exact(s, n, j + 1, n0, i0, delta, bias, output, want)
    ensures s[j] < n ==> Exact(s, n, j + 1, n0, i0, delta + 1, bias, output, want)
    ensures s[j] < n && delta + 1 > MAX_INT32 ==> want == None
  {
    hide UpTo;
    SeenStep(s, n, j);
    BehindNextIndex(s, n, j, n0, i0);
    if n0 == n {
      SmallKept(s, n, j + 1, i0);
    } else if s[j] < n && delta + 1 > MAX_INT32 {
      Overflows(s, n, j + 1, n0, i0, bias);
    }
  }

  lemma PassInserts(s: Text, n: int, j: nat, n0: int, i0: nat, delta: nat, bias: int, h: int, b: int, remaining: int,
                    output: Text, want: Option<Text>)
    requires j < |s| && s[j] == n && n <= MAX_RUNE && delta <= MAX_INT32
    requires Inv(s, n, j, n0, i0, h, b, remaining) && Exact(s, n, j, n0, i0, delta, bias, output, want)
    ensures 0 <= h < |s|
    ensures Inv(s, n, j + 1, n, Rank(s, n, j) + 1, h + 1, b, remaining - 1)
    ensures Exact(s, n, j + 1, n, Rank(s, n, j) + 1, 0, Adapt(delta, h + 1, h == b),
                  output + VarInt(delta, BASE, bias), want)
  {
    hide Adapt, VarInt, UpTo;
    SeenBound(s, n, j);
    SeenStep(s, n, j);
    BehindNextIndex(s, n, j, n0, i0);
    var rest := Coded(s, n, j + 1, n, Rank(s, n, j) + 1, Adapt(delta, h + 1, h == b));
    assert Coded(s, n, j, n0, i0, bias) == Then(VarInt(delta, BASE, bias), rest);
    ThenThen(output, VarInt(delta, BASE, bias), rest);
  }

  lemma ThenThen(a: Text, b: Text, rest: Option<Text>)
    ensures Then(a, Then(b, rest)) == Then(a + b, rest)
  {
    if rest.Some? {
      assert a + (b + rest.value) == (a + b) + rest.value;
    }
  }

  /** adapt at an insertion, packaged so that the bias is only a name to the caller. */
  method InsertHere(s: Text, n: int, j: nat, ghost n0: int, ghost i0: nat, delta: int, bias: int, h: int, b: int,
                    ghost remaining: int, output: Text, ghost want: Option<Text>)
    returns (bias1: int, output1: Text)
    requires |s| < MAX_INT32 && j < |s| && s[j] == n && n <= MAX_RUNE
    requires 0 <= delta <= MAX_INT32 && 0 <= bias <= MAX_BIAS
    requires Inv(s, n, j, n0, i0, h, b, remaining) && Exact(s, n, j, n0, i0, delta, bias, output, want)
    ensures 0 <= h < |s| && 0 <= bias1 <= MAX_BIAS
    ensures Inv(s, n, j + 1, n, Rank(s, n, j) + 1, h + 1, b, remaining - 1)
    ensures Exact(s, n, j + 1, n, Rank(s, n, j) + 1, 0, bias1, output1, want)
  {
    output1 := AppendInteger(output, delta, bias);
    PassInserts(s, n, j, n0, i0, delta, bias, h, b, remaining, output, want);
    bias1 := ComputeAdapt(delta, Wrap(h + 1), h == b);
  }

  /** One pass of encode over the label for the character n. */
  method EncodePass(s: Text, n: int, ghost n0: int, ghost i0: nat, delta0: int, bias0: int, h0: int, b: int,
                    remaining0: int, output0: Text, ghost want: Option<Text>)
    returns (ok: bool, ghost n1: int, ghost i1: nat, delta: int, bias: int, h: int, remaining: int, output: Text)
    requires |s| < MAX_INT32 && n <= MAX_RUNE && 0 <= delta0 <= MAX_INT32 && 0 <= bias0 <= MAX_BIAS
    requires Inv(s, n, 0, n0, i0, h0, b, remaining0) && exists k :: 0 <= k < |s| && s[k] == n
    requires Exact(s, n, 0, n0, i0, delta0, bias0, output0, want)
    ensures !ok ==> want == None
    ensures ok ==> Inv(s, n, |s|, n, i1, h, b, remaining) && 0 <= delta <= MAX_INT32 && 0 <= bias <= MAX_BIAS
    ensures ok ==> Exact(s, n, |s|, n, i1, delta, bias, output, want)
  {
    hide Delta, Adapt, Coded, Seen, Kept;
    delta, bias, h, remaining, output := delta0, bias0, h0, remaining0, output0;
    n1, i1 := n0, i0;
    ok := true;
    var j := 0;
    while j < |s|
      invariant 0 <= j <= |s| && 0 <= delta <= MAX_INT32 && 0 <= bias <= MAX_BIAS
      invariant Inv(s, n, j, n1, i1, h, b, remaining)
      invariant Exact(s, n, j, n1, i1, delta, bias, output, want)
      invariant n1 == n || exists k :: j <= k < |s| && s[k] == n
    {
      if s[j] < n {
        PassSkips(s, n, j, n1, i1, delta, bias, h, b, remaining, output, want);
        delta := Wrap(delta + 1);
        if delta < 0 {
          ok := false;
          return;
        }
      } else if s[j] == n {
        bias, output := InsertHere(s, n, j, n1, i1, delta, bias, h, b, remaining, output, want);
        n1, i1 := n, Rank(s, n, j) + 1;
        delta := 0;
        h := Wrap(h + 1);
        remaining := Wrap(remaining - 1);
      } else {
        PassSkips(s, n, j, n1, i1, delta, bias, h, b, remaining, output, want);
      }
      j := j + 1;
    }
  }

  /** Moving on to the least character left: no state between is an insertion. */
  lemma JumpAhead(s: Text, n: int, m: int, n0: int, i0: nat, delta: int, bias: int, h: int, b: int, remaining: int,
                  output: Text, want: Option<Text>)
    requires n <= m <= MAX_RUNE && (exists k :: 0 <= k < |s| && s[k] == m) && |s| < MAX_INT32
    requires forall k :: 0 <= k < |s| ==> !(n <= s[k] < m)
    requires Inv(s, n, 0, n0, i0, h, b, remaining) && Exact(s, n, 0, n0, i0, delta, bias, output, want)
    requires delta == Delta(s, n, 0, n0, i0)
    ensures Inv(s, m, 0, n0, i0, h, b, remaining) && Then(output, Coded(s, m, 0, n0, i0, bias)) == want
    ensures var d := delta + (m - n) * (h + 1);
      Kept(s, m, 0, n0, i0) == d % TWO_32 && (d % TWO_32 > MAX_INT32 ==> want == None)
  {
    hide UpTo, Coded, Kept, Delta, Seen;
    SkipCharacters(s, n, m, n0, i0, bias);
    KeptAhead(s, n, m, n0, i0, h);
    if n0 < m && Kept(s, m, 0, n0, i0) > MAX_INT32 {
      Overflows(s, m, 0, n0, i0, bias);
    }
  }

  lemma KeptAhead(s: Text, n: int, m: int, n0: int, i0: nat, h: int)
    requires n <= m && Behind(s, n, 0, n0, i0) && Behind(s, m, 0, n0, i0) && |s| < MAX_INT32
    requires h == |Seen(s, n, 0)| && Seen(s, m, 0) == Seen(s, n, 0)
    ensures Kept(s, m, 0, n0, i0) == (Delta(s, n, 0, n0, i0) + (m - n) * (h + 1)) % TWO_32
    ensures n0 == m ==> Kept(s, m, 0, n0, i0) <= MAX_INT32
  {
    hide UpTo, Seen;
    SeenAtEnds(s, n);
    SeenAtEnds(s, m);
    Sum(n0, n, m, h + 1);
    if n0 == m {
      SmallKept(s, m, 0, i0);
    }
  }

  lemma Sum(a: int, b: int, c: int, x: int)
    ensures (c - a) * x == (b - a) * x + (c - b) * x
  {
  }

  lemma SmallModulo(x: int)
    ensures 0 <= x < TWO_32 ==> x % TWO_32 == x
  {
  }

  /** The sign of a wrapped value and the value itself, where it is not negative. */
  lemma WrapModulo(x: int)
    ensures Wrap(x) < 0 <==> x % TWO_32 > MAX_INT32
    ensures Wrap(x) >= 0 ==> Wrap(x) == x % TWO_32
  {
  }

  lemma WrapInside(a: int, b: int)
    ensures Wrap(a + Wrap(b)) == Wrap(a + b)
  {
  }

  /** The end of a pass: delta++ and n++ step over the state after the last index. */
  lemma PassEnds(s: Text, n: int, i0: nat, delta: int, bias: int, h: int, b: int, remaining: int,
                 output: Text, want: Option<Text>)
    requires n <= MAX_RUNE && |s| < MAX_INT32
    requires Inv(s, n, |s|, n, i0, h, b, remaining) && Exact(s, n, |s|, n, i0, delta, bias, output, want)
    ensures Inv(s, n + 1, 0, n, i0, h, b, remaining)
    ensures Exact(s, n + 1, 0, n, i0, delta + 1, bias, output, want)
    ensures delta + 1 <= MAX_INT32 && delta + 1 == Delta(s, n + 1, 0, n, i0)
  {
    hide UpTo;
    BehindNextCharacter(s, n, n, i0);
    SeenAtEnds(s, n);
    SeenAtEnds(s, n + 1);
    SmallKept(s, n, |s|, i0);
    SmallModulo(h + 1 - i0);
  }

  lemma SomethingLeft(s: Text, n: int)
    requires |Seen(s, n, 0)| != |s|
    ensures exists k :: 0 <= k < |s| && s[k] >= n
  {
    SeenAtEnds(s, n - 1);
    UpToAll(s, n - 1);
  }

  /** delta += (m - n) * (h + 1), in int32. */
  method AddStates(delta: int, n: int, m: int, h: int) returns (delta1: int)
    requires 0 <= n <= m <= MAX_RUNE && 0 <= h < MAX_INT32
    ensures InRange(delta1)
    ensures delta1 < 0 <==> (delta + (m - n) * (h + 1)) % TWO_32 > MAX_INT32
    ensures delta1 >= 0 ==> delta1 == (delta + (m - n) * (h + 1)) % TWO_32
  {
    hide Wrap;
    var step := Wrap(Wrap(m - n) * Wrap(h + 1));
    delta1 := Wrap(delta + step);
    WrapInside(delta, (m - n) * (h + 1));
    WrapModulo(delta + (m - n) * (h + 1));
  }

  /** The jump to the next character: the sign test finds an overflow exactly if the wrapped sum is negative. */
  method Jump(s: Text, n: int, m: int, ghost n0: int, ghost i0: nat, delta: int, ghost bias: int, h: int,
              ghost b: int, ghost remaining: int, ghost output: Text, ghost want: Option<Text>)
    returns (delta1: int)
    requires n <= m <= MAX_RUNE && (exists k :: 0 <= k < |s| && s[k] == m) && |s| < MAX_INT32
    requires forall k :: 0 <= k < |s| ==> !(n <= s[k] < m)
    requires Inv(s, n, 0, n0, i0, h, b, remaining) && Exact(s, n, 0, n0, i0, delta, bias, output, want)
    requires delta == Delta(s, n, 0, n0, i0)
    ensures InRange(delta1) && (delta1 < 0 ==> want == None)
    ensures delta1 < 0 <==> (delta + (m - n) * (h + 1)) % TWO_32 > MAX_INT32
    ensures Inv(s, m, 0, n0, i0, h, b, remaining)
    ensures delta1 >= 0 ==> Exact(s, m, 0, n0, i0, delta1, bias, output, want)
  {
    hide Delta, Seen, Coded, UpTo, Kept, Rank;
    JumpAhead(s, n, m, n0, i0, delta, bias, h, b, remaining, output, want);
    SeenBound(s, n, 0);
    delta1 := AddStates(delta, n, m, h);
  }

  /** encode, with all its int32 arithmetic: what it writes, and when it gives up. */
  method Encode(prefix: Text, s: Text) returns (r: Result)
    requires |s| < MAX_INT32
    ensures r == match CodedLabel(s) case None => InvalidLabel case Some(coded) => Ok(prefix + coded)
  {
    hide Delta, Adapt, Seen, Coded, Wrap, UpTo, Behind, CodedLabel, Kept;
    var output, b, remaining := CopyBasic(prefix, s);
    var delta, n, bias := 0, INITIAL_N, INITIAL_BIAS;
    var h := b;
    if b > 0 {
      output := output + [HYPHEN];
    }
    ghost var n0, i0: nat, want := INITIAL_N, 0, Then(prefix, CodedLabel(s));
    StartExact(prefix, s, output);
    while remaining != 0
      invariant InRange(delta) && 0 <= bias <= MAX_BIAS && n <= MAX_RUNE + 1
      invariant Inv(s, n, 0, n0, i0, h, b, remaining)
      invariant Exact(s, n, 0, n0, i0, delta, bias, output, want) && delta == Delta(s, n, 0, n0, i0)
      decreases MAX_RUNE + 1 - n
    {
      SomethingLeft(s, n);
      var m := LeastFrom(s, n);
      delta := Jump(s, n, m, n0, i0, delta, bias, h, b, remaining, output, want);
      if delta < 0 {
        return InvalidLabel;
      }
      n := m;
      var ok;
      ok, n0, i0, delta, bias, h, remaining, output :=
        EncodePass(s, n, n0, i0, delta, bias, h, b, remaining, output, want);
      if !ok {
        return InvalidLabel;
      }
      PassEnds(s, n, i0, delta, bias, h, b, remaining, output, want);
      n0 := n;
      delta := Wrap(delta + 1);
      n := Wrap(n + 1);
    }
    NothingLeft(s, n, n0, i0, bias);
    r := Ok(output);
  }

  lemma StartExact(prefix: Text, s: Text, output: Text)
    requires output == prefix + Basic(s) + if |Basic(s)| > 0 then [HYPHEN] else []
    ensures Inv(s, INITIAL_N, 0, INITIAL_N, 0, |Basic(s)|, |Basic(s)|, |s| - |Basic(s)|)
    ensures Exact(s, INITIAL_N, 0, INITIAL_N, 0, 0, INITIAL_BIAS, output, Then(prefix, CodedLabel(s)))
    ensures Delta(s, INITIAL_N, 0, INITIAL_N, 0) == 0
  {
    Start(s);
    SeenAtEnds(s, INITIAL_N);
    var hyphen := if |Basic(s)| > 0 then [HYPHEN] else [];
    ThenThen(prefix, Basic(s) + hyphen, Coded(s, INITIAL_N, 0, INITIAL_N, 0, INITIAL_BIAS));
    assert prefix + (Basic(s) + hyphen) == prefix + Basic(s) + hyphen;
    assert Basic(s) + [] == Basic(s);
  }
}
