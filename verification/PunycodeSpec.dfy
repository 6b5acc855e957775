/** The encoder's output as a walk over every decoder state, section 6.3 of RFC 3492 without its shortcuts. */
module PunycodeSpec {
  import opened Arithmetic
  import opened Punycode

  lemma QuotientShrinks(q: nat, t: int)
    requires T_MIN <= t <= T_MAX && t <= q
    ensures 0 <= (q - t) % (BASE - t) < BASE - t
    ensures 0 <= (q - t) / (BASE - t) < q
    ensures q == t + (q - t) % (BASE - t) + (q - t) / (BASE - t) * (BASE - t)
    ensures (q - t) / (BASE - t) <= q / 10
  {
    DivMod(q - t, BASE - t);
    QuotientAtMost(q - t, BASE - t);
    MulMonotone(10, BASE - t, (q - t) / (BASE - t));
  }

  /** The generalized variable-length integer for q, least significant digit first. */
  function VarInt(q: nat, k: int, bias: int): (digits: Text)
    ensures digits != []
    ensures forall x :: x in digits ==> x != HYPHEN && x != DOT && x < 0x80
    decreases q
  {
    var t := Threshold(k, bias);
    if q < t then [EncodeDigit(q)]
    else
      QuotientShrinks(q, t);
      [EncodeDigit(t + (q - t) % (BASE - t))] + VarInt((q - t) / (BASE - t), k + BASE, bias)
  }

  /** The characters of s that are at most n. */
  function UpTo(s: Text, n: int): (r: Text)
    ensures |r| <= |s|
  {
    if s == [] then []
    else if s[|s| - 1] <= n then UpTo(s[..|s| - 1], n) + [s[|s| - 1]]
    else UpTo(s[..|s| - 1], n)
  }

  /** The characters a decoder has inserted before it reaches character n at index j of s. */
  function Seen(s: Text, n: int, j: nat): Text
    requires j <= |s|
  {
    UpTo(s[..j], n) + UpTo(s[j..], n - 1)
  }

  /** Where, among the characters seen, index j of s is. */
  function Rank(s: Text, n: int, j: nat): nat
    requires j <= |s|
  {
    |UpTo(s[..j], n)|
  }

  /** How many decoder states lie between (n0, i0) and the insertion of n before index j. */
  function Delta(s: Text, n: int, j: nat, n0: int, i0: nat): int
    requires j <= |s|
  {
    (n - n0) * (|Seen(s, n, j)| + 1) + Rank(s, n, j) - i0
  }

  /** The decoder's last insertion left it in state (n0, i0), no later than its state at character n, index j. */
  ghost predicate Behind(s: Text, n: int, j: nat, n0: int, i0: nat) {
    && j <= |s|
    && INITIAL_N <= n0 <= n
    && i0 <= |Seen(s, n, j)|
    && (n0 == n ==> i0 <= Rank(s, n, j))
  }

  lemma {:induction false} UpToSplit(s: Text, j: nat, n: int)
    requires j <= |s|
    ensures UpTo(s, n) == UpTo(s[..j], n) + UpTo(s[j..], n)
  {
    if j == |s| {
      assert s[..j] == s && s[j..] == [];
    } else {
      var last := |s| - 1;
      UpToSplit(s[..last], j, n);
      assert s[..last][..j] == s[..j] && s[..last][j..] == s[j..][..last - j];
      assert s[j..][last - j] == s[last];
      assert UpTo(s[j..], n) == UpTo(s[j..][..last - j], n) + if s[last] <= n then [s[last]] else [];
    }
  }

  /** Between two neighbouring cursors only the character at index j can be inserted, and only if it is n. */
  lemma SeenStep(s: Text, n: int, j: nat)
    requires j < |s|
    ensures Rank(s, n, j + 1) == Rank(s, n, j) + (if s[j] <= n then 1 else 0)
    ensures Rank(s, n, j) <= |Seen(s, n, j)|
    ensures s[j] != n ==> Seen(s, n, j + 1) == Seen(s, n, j)
    ensures s[j] == n ==>
      var r := Rank(s, n, j); var seen := Seen(s, n, j);
      Seen(s, n, j + 1) == seen[..r] + [n] + seen[r..]
  {
    assert s[..j + 1][..j] == s[..j];
    assert s[j..][..1] == [s[j]] && s[j..][1..] == s[j + 1..];
    UpToSplit(s[j..], 1, n - 1);
    assert [s[j]][..0] == [];
    assert UpTo([s[j]], n - 1) == if s[j] <= n - 1 then [s[j]] else [];
  }

  lemma SeenAtEnds(s: Text, n: int)
    ensures Seen(s, n, |s|) == Seen(s, n + 1, 0) == UpTo(s, n)
    ensures Rank(s, n, 0) == 0 && Rank(s, n, |s|) == |Seen(s, n, |s|)|
  {
    assert s[..|s|] == s && s[|s|..] == [] && s[..0] == [] && s[0..] == s;
  }

  lemma DeltaNonNegative(s: Text, n: int, j: nat, n0: int, i0: nat)
    requires Behind(s, n, j, n0, i0)
    ensures 0 <= Delta(s, n, j, n0, i0)
  {
    if n0 < n {
      MulMonotone(1, n - n0, |Seen(s, n, j)| + 1);
    }
  }

  lemma BehindNextIndex(s: Text, n: int, j: nat, n0: int, i0: nat)
    requires j < |s| && Behind(s, n, j, n0, i0)
    ensures s[j] != n ==> Behind(s, n, j + 1, n0, i0)
    ensures s[j] == n ==> Behind(s, n, j + 1, n, Rank(s, n, j) + 1)
  {
    SeenStep(s, n, j);
  }

  lemma BehindNextCharacter(s: Text, n: int, n0: int, i0: nat)
    requires Behind(s, n, |s|, n0, i0)
    ensures Behind(s, n + 1, 0, n0, i0)
  {
    SeenAtEnds(s, n);
  }

  /**
   * The digits for every character of s at or after the cursor (n, j), in order of character and then of index;
   * each is written as the number of states skipped since the last insertion.
   */
  ghost function Digits(s: Text, n: int, j: nat, n0: int, i0: nat, bias: int): Text
    requires Behind(s, n, j, n0, i0)
    decreases MAX_RUNE + 1 - n, |s| - j
  {
    if n > MAX_RUNE then []
    else if j == |s| then
      BehindNextCharacter(s, n, n0, i0);
      Digits(s, n + 1, 0, n0, i0, bias)
    else
      BehindNextIndex(s, n, j, n0, i0);
      if s[j] != n then Digits(s, n, j + 1, n0, i0, bias)
      else
        DeltaNonNegative(s, n, j, n0, i0);
        var delta := Delta(s, n, j, n0, i0);
        VarInt(delta, BASE, bias)
        + Digits(s, n, j + 1, n, Rank(s, n, j) + 1, Adapt(delta, |Seen(s, n, j)| + 1, i0 == 0))
  }

  /** The ASCII characters of a label, in order. */
  function Basic(s: Text): Text {
    UpTo(s, INITIAL_N - 1)
  }

  lemma Start(s: Text)
    ensures Behind(s, INITIAL_N, 0, INITIAL_N, 0)
    ensures Seen(s, INITIAL_N, 0) == Basic(s)
  {
    SeenAtEnds(s, INITIAL_N - 1);
    SeenAtEnds(s, INITIAL_N);
  }

  /** What encode promises: the ASCII characters, a hyphen if there are any, then the digits. */
  ghost function Encoded(s: Text): Text {
    Start(s);
    var b := Basic(s);
    (if b == [] then [] else b + [HYPHEN]) + Digits(s, INITIAL_N, 0, INITIAL_N, 0, INITIAL_BIAS)
  }
}
