/** The Bootstring parameters, digits and bias adaptation of idna/punycode.go. */
module Punycode {
  import opened Arithmetic
  import opened Int32
  import opened Options

  /** A Unicode scalar value; a Go string is modelled as a sequence of these. */
  type Rune = r: int | 0 <= r < 0xD800 || 0xE000 <= r <= MAX_RUNE
  type Text = seq<Rune>

  const MAX_RUNE := 0x10FFFF
  const BASE := 36
  const DAMP := 700
  const INITIAL_BIAS := 72
  const INITIAL_N := 128
  const SKEW := 38
  const T_MAX := 26
  const T_MIN := 1
  /** decode gives up once the weight of the next digit reaches math.MaxInt32 / base. */
  const WEIGHT_LIMIT := MAX_INT32 / BASE
  const HYPHEN: Rune := 0x2D
  const DOT: Rune := 0x2E
  /** decode gives up when asked to insert into an output this long. */
  const MAX_OUTPUT := 1024

  datatype Result = Ok(value: Text) | InvalidLabel

  // ----- digits -----

  function EncodeDigit(digit: int): (x: Rune)
    requires 0 <= digit < BASE
    ensures DecodeDigit(x) == Some(digit) && x != HYPHEN && x != DOT && x < 0x80
  {
    if digit < 26 then digit + 0x61 else digit + (0x30 - 26)
  }

  function DecodeDigit(x: Rune): (digit: Option<int>)
    ensures digit.Some? ==> 0 <= digit.value < BASE
  {
    if 0x30 <= x <= 0x39 then Some(x - (0x30 - 26))
    else if 0x41 <= x <= 0x5A then Some(x - 0x41)
    else if 0x61 <= x <= 0x7A then Some(x - 0x61)
    else None
  }

  /** The digit threshold t(k) of a variable-length integer. */
  function Threshold(k: int, bias: int): (t: int)
    ensures T_MIN <= t <= T_MAX
  {
    if k - bias < T_MIN then T_MIN else if k - bias > T_MAX then T_MAX else k - bias
  }

  // ----- bias adaptation -----

  function AdaptTail(delta: nat, k: nat): (bias: nat)
    decreases delta
  {
    if delta > ((BASE - T_MIN) * T_MAX) / 2
    then AdaptTail(delta / (BASE - T_MIN), k + BASE)
    else k + (BASE - T_MIN + 1) * delta / (delta + SKEW)
  }

  function Damped(delta: nat, numPoints: nat, firstTime: bool): (r: nat)
    requires numPoints >= 1
    ensures r <= delta
  {
    var d := if firstTime then delta / DAMP else delta / 2;
    QuotientAtMost(d, numPoints);
    d + d / numPoints
  }

  function Adapt(delta: nat, numPoints: nat, firstTime: bool): nat
    requires numPoints >= 1
  {
    AdaptTail(Damped(delta, numPoints, firstTime), 0)
  }

  const MAX_BIAS := 198

  lemma AdaptTailBound(delta: nat, k: nat, steps: nat)
    requires k == BASE * steps
    requires steps == 0 ==> delta <= 2147483647
    requires steps == 1 ==> delta <= 61356675
    requires steps == 2 ==> delta <= 1753047
    requires steps == 3 ==> delta <= 50087
    requires steps == 4 ==> delta <= 1431
    requires steps == 5 ==> delta <= 40
    requires steps <= 5
    ensures AdaptTail(delta, k) <= MAX_BIAS
    decreases 5 - steps
  {
    if delta > ((BASE - T_MIN) * T_MAX) / 2 {
      AdaptTailBound(delta / (BASE - T_MIN), k + BASE, steps + 1);
    } else {
      QuotientBelow((BASE - T_MIN + 1) * delta, delta + SKEW, if steps < 5 then 37 else 19);
    }
  }

  /** No int32 delta adapts to a bias above 198. */
  lemma AdaptBound(delta: nat, numPoints: nat, firstTime: bool)
    requires numPoints >= 1 && delta <= MAX_INT32
    ensures Adapt(delta, numPoints, firstTime) <= MAX_BIAS
  {
    AdaptTailBound(Damped(delta, numPoints, firstTime), 0, 0);
  }

  /** adapt, in int32: none of its operations leaves the type. */
  method ComputeAdapt(delta: int, numPoints: int, firstTime: bool) returns (bias: int)
    requires 0 <= delta <= MAX_INT32 && 1 <= numPoints <= MAX_INT32
    ensures bias == Adapt(delta, numPoints, firstTime)
    ensures 0 <= bias <= MAX_BIAS
  {
    var d := if firstTime then delta / DAMP else delta / 2;
    d := Wrap(d + d / numPoints);
    assert d == Damped(delta, numPoints, firstTime);
    var k := 0;
    AdaptBound(delta, numPoints, firstTime);
    while d > ((BASE - T_MIN) * T_MAX) / 2
      invariant 0 <= d <= MAX_INT32 && 0 <= k
      invariant AdaptTail(d, k) == Adapt(delta, numPoints, firstTime)
      invariant k <= AdaptTail(d, k)
      decreases d
    {
      AdaptTailGrows(d / (BASE - T_MIN), k + BASE);
      d := d / (BASE - T_MIN);
      k := Wrap(k + BASE);
    }
    assert InRange((BASE - T_MIN + 1) * d) && InRange(d + SKEW);
    bias := Wrap(k + Wrap(Wrap(BASE - T_MIN + 1) * d) / Wrap(d + SKEW));
  }

  lemma AdaptTailGrows(delta: nat, k: nat)
    ensures k <= AdaptTail(delta, k)
    decreases delta
  {
  }
}
