/** The unchecked sum of decode, n += i / x, never leaves int32: for any input, not only for encoded labels. */
module PunycodeNoWrap {
  import opened Arithmetic
  import opened Int32
  import opened Options
  import opened Punycode
  import opened PunycodeDecode

  /** The weight of digit number a of the first integer, where the bias is still 72. */
  function FirstWeight(a: nat): nat {
    if a == 0 then 1 else if a <= 2 then 35 * FirstWeight(a - 1) else 10 * FirstWeight(a - 1)
  }

  /** The most that the digits before number a can add up to. */
  function FirstSum(a: nat): nat {
    if a == 0 then 0 else FirstSum(a - 1) + 35 * FirstWeight(a - 1)
  }

  lemma FirstWeights()
    ensures FirstWeight(7) == 122_500_000
    ensures forall a :: 0 <= a <= 6 ==> 1 <= FirstWeight(a) <= 12_250_000
    ensures forall a :: 0 <= a <= 6 ==> FirstSum(a) + 35 * FirstWeight(a) < 500_000_000
  {
    assert FirstWeight(2) == 1225 && FirstWeight(4) == 122500 && FirstWeight(6) == 12250000;
    assert FirstSum(2) == 35 * 36 && FirstSum(4) == 35 * 13511 && FirstSum(6) == 35 * 1361011;
    assert FirstWeight(1) == 35 && FirstWeight(3) == 12250 && FirstWeight(5) == 1225000;
    assert FirstSum(1) == 35 && FirstSum(3) == 35 * 1261 && FirstSum(5) == 35 * 136011 && FirstSum(0) == 0;
  }

  /** The first integer is far below 2^31: its weights grow too fast for decode to read many digits. */
  lemma {:induction false} FirstInteger(rest: Text, i: nat, a: nat)
    requires a <= 6 && i <= FirstSum(a)
    ensures
      var r := ReadInteger(rest, i, FirstWeight(a), BASE * (a + 1), INITIAL_BIAS);
      r.Read? ==> r.i < 500_000_000
    decreases 6 - a
  {
    hide ReadInteger, FirstWeight, FirstSum, Threshold;
    FirstWeights();
    if rest != [] && DecodeDigit(rest[0]).Some? {
      var digit, w := DecodeDigit(rest[0]).value, FirstWeight(a);
      MulBounds(digit, w, 35, w);
      FirstStep(a);
      ReadStep(rest, digit, i, w, BASE * (a + 1), INITIAL_BIAS);
      if a < 6 {
        FirstInteger(rest[1..], i + digit * w, a + 1);
      }
    } else {
      NoDigit(rest, i, FirstWeight(a), BASE * (a + 1), INITIAL_BIAS);
    }
  }

  lemma FirstStep(a: nat)
    ensures FirstWeight(a + 1) == FirstWeight(a) * (BASE - Threshold(BASE * (a + 1), INITIAL_BIAS))
    ensures FirstSum(a + 1) == FirstSum(a) + 35 * FirstWeight(a)
  {
    if a < 2 {
      assert Threshold(BASE * (a + 1), INITIAL_BIAS) == 1;
    } else {
      assert Threshold(BASE * (a + 1), INITIAL_BIAS) == 26;
    }
  }

  lemma NoDigit(rest: Text, i: nat, w: nat, k: int, bias: int)
    requires rest == [] || DecodeDigit(rest[0]).None?
    ensures ReadInteger(rest, i, w, k, bias) == BadInteger
  {
  }

  ghost predicate InUnicode(out: seq<int>) {
    forall k :: 0 <= k < |out| ==> 0 <= out[k] <= MAX_RUNE
  }

  /** Whatever the digits, every code point decode inserts is one: n neither wraps nor leaves the Unicode range. */
  lemma {:induction false} NeverWraps(rest: Text, i: nat, n: int, bias: int, out: seq<int>)
    requires i <= MAX_INT32 && INITIAL_N <= n <= MAX_RUNE && InUnicode(out)
    requires out == [] ==> i == 0 && n == INITIAL_N && bias == INITIAL_BIAS
    ensures
      var r := Insertions(rest, i, n, bias, out);
      r.Some? ==> InUnicode(r.value)
    ensures rest != [] && ReadInteger(rest, i, 1, BASE, bias).Read? ==>
      InRange(n + ReadInteger(rest, i, 1, BASE, bias).i / (|out| + 1))
    decreases |rest|
  {
    hide Adapt, ReadInteger;
    if rest != [] {
      var read := ReadInteger(rest, i, 1, BASE, bias);
      if read.Read? {
        var x := |out| + 1;
        assert read.i <= MAX_INT32;
        DivMod(read.i, x);
        QuotientAtLeast(read.i, x, 0);
        if out == [] {
          FirstInteger(rest, 0, 0);
          assert read.i / 1 == read.i;
        } else {
          MulMonotone(2, x, 0x4000_0000);
          QuotientBelow(read.i, x, 0x4000_0000);
        }
        var n1 := n + read.i / x;
        if n1 <= MAX_RUNE && |out| < MAX_OUTPUT {
          var out1 := Insert(out, read.i % x, n1);
          NeverWraps(read.rest, read.i % x + 1, n1, Adapt(read.i - i, x, i == 0), out1);
        }
      }
    }
  }

  /** The main loop on unbounded integers. */
  function InsertionsUnbounded(rest: Text, i: nat, n: int, bias: int, out: seq<int>): Option<seq<int>>
    requires i <= MAX_INT32
    decreases |rest|
  {
    if rest == [] then Some(out) else
    match ReadInteger(rest, i, 1, BASE, bias)
    case BadInteger => None
    case Read(i1, rest1) =>
      var x := |out| + 1;
      var n1 := n + i1 / x;
      if n1 > MAX_RUNE || |out| >= MAX_OUTPUT then None
      else InsertionsUnbounded(rest1, i1 % x + 1, n1, Adapt(i1 - i, x, i == 0), Insert(out, i1 % x, n1))
  }

  /** One unfolding, with the quotient and the remainder named. */
  lemma UnboundedStep(rest: Text, i: nat, n: int, bias: int, out: seq<int>, i1: nat, rest1: Text, q: nat, at: nat)
    requires i <= MAX_INT32 && rest != []
    requires ReadInteger(rest, i, 1, BASE, bias) == Read(i1, rest1)
    requires q == i1 / (|out| + 1) && at == i1 % (|out| + 1)
    ensures at <= |out| && i <= i1 <= MAX_INT32 && (|out| < MAX_OUTPUT ==> at + 1 <= MAX_INT32)
    ensures InsertionsUnbounded(rest, i, n, bias, out)
         == if n + q > MAX_RUNE || |out| >= MAX_OUTPUT then None
            else InsertionsUnbounded(rest1, at + 1, n + q, Adapt(i1 - i, |out| + 1, i == 0), Insert(out, at, n + q))
  {
    hide Adapt, Insert, ReadInteger;
    SplitIndex(i1, |out| + 1);
  }

  lemma FullOutput(rest: Text, i: nat, n: int, bias: int, out: seq<int>)
    requires i <= MAX_INT32 && rest != [] && |out| >= MAX_OUTPUT
    ensures Insertions(rest, i, n, bias, out) == InsertionsUnbounded(rest, i, n, bias, out) == None
  {
    hide Adapt, ReadInteger;
  }

  lemma NothingRead(rest: Text, i: nat, n: int, bias: int, out: seq<int>)
    requires i <= MAX_INT32 && (rest == [] || ReadInteger(rest, i, 1, BASE, bias).BadInteger?)
    ensures Insertions(rest, i, n, bias, out) == InsertionsUnbounded(rest, i, n, bias, out)
  {
    hide Adapt, ReadInteger;
  }

  /** So wrapping around changes nothing, in any run: accepted or rejected, now or later. */
  lemma {:induction false} WrapNeverMatters(rest: Text, i: nat, n: int, bias: int, out: seq<int>)
    requires i <= MAX_INT32 && INITIAL_N <= n <= MAX_RUNE && InUnicode(out)
    requires out == [] ==> i == 0 && n == INITIAL_N && bias == INITIAL_BIAS
    ensures Insertions(rest, i, n, bias, out) == InsertionsUnbounded(rest, i, n, bias, out)
    decreases |rest|
  {
    hide Adapt, ReadInteger, Wrap, Insertions, InsertionsUnbounded;
    if rest == [] || ReadInteger(rest, i, 1, BASE, bias).BadInteger? {
      NothingRead(rest, i, n, bias, out);
    } else if |out| >= MAX_OUTPUT {
      FullOutput(rest, i, n, bias, out);
    } else {
      var read := ReadInteger(rest, i, 1, BASE, bias);
      SplitIndex(read.i, |out| + 1);
      var q, at := read.i / (|out| + 1), read.i % (|out| + 1);
      NeverWraps(rest, i, n, bias, out);
      assert Wrap(n + q) == n + q;
      InsertionsStep(rest, i, n, bias, out, read.i, read.rest, q, at);
      UnboundedStep(rest, i, n, bias, out, read.i, read.rest, q, at);
      if n + q <= MAX_RUNE {
        WrapNeverMatters(read.rest, at + 1, n + q, Adapt(read.i - i, |out| + 1, i == 0), Insert(out, at, n + q));
      }
    }
  }

  /** What decode returns for every input with digits is what it would return on unbounded integers. */
  lemma DecodedUnbounded(encoded: Text)
    requires encoded != [] && AfterLastHyphen(encoded) !in {1, |encoded|}
    ensures
      var pos := AfterLastHyphen(encoded);
      Decoded(encoded) ==
        match InsertionsUnbounded(encoded[pos..], 0, INITIAL_N, INITIAL_BIAS,
                                  if pos == 0 then [] else encoded[..pos - 1])
        case None => InvalidLabel
        case Some(runes) => Ok(ToText(runes))
  {
    hide Insertions, InsertionsUnbounded;
    var pos := AfterLastHyphen(encoded);
    WrapNeverMatters(encoded[pos..], 0, INITIAL_N, INITIAL_BIAS, if pos == 0 then [] else encoded[..pos - 1]);
  }
}
