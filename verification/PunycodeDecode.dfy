/** decode of idna/punycode.go. */
module PunycodeDecode {
  import opened Arithmetic
  import opened Int32
  import opened Options
  import opened Punycode

  /** One variable-length integer read off the front of rest: the new i, and what follows it. */
  datatype Read = BadInteger | Read(i: nat, rest: Text)

  /** Section 6.2 of RFC 3492 on unbounded integers: the sum must fit an int32, the weight must stay small. */
  function ReadInteger(rest: Text, i: nat, w: nat, k: int, bias: int): (r: Read)
    ensures r.Read? ==> i <= r.i && |r.rest| < |rest|
    ensures r.Read? && i <= MAX_INT32 ==> r.i <= MAX_INT32
    decreases |rest|
  {
    if rest == [] then BadInteger else
    match DecodeDigit(rest[0])
    case None => BadInteger
    case Some(digit) =>
      MulMonotone(0, digit, w);
      var i' := i + digit * w;
      var t := Threshold(k, bias);
      MulMonotone(0, BASE - t, w);
      if i' > MAX_INT32 then BadInteger
      else if digit < t then Read(i', rest[1..])
      else if w * (BASE - t) >= WEIGHT_LIMIT then BadInteger
      else ReadInteger(rest[1..], i', w * (BASE - t), k + BASE, bias)
  }

  /** One unfolding of ReadInteger. */
  lemma ReadStep(all: Text, digit: nat, i: nat, w: nat, k: int, bias: int)
    requires all != [] && DecodeDigit(all[0]) == Some(digit)
    ensures 0 <= digit * w && 0 <= w * (BASE - Threshold(k, bias))
    ensures ReadInteger(all, i, w, k, bias)
         == if i + digit * w > MAX_INT32 then BadInteger
            else if digit < Threshold(k, bias) then Read(i + digit * w, all[1..])
            else if w * (BASE - Threshold(k, bias)) >= WEIGHT_LIMIT then BadInteger
            else ReadInteger(all[1..], i + digit * w, w * (BASE - Threshold(k, bias)), k + BASE, bias)
  {
    MulMonotone(0, digit, w);
    MulMonotone(0, BASE - Threshold(k, bias), w);
  }

  function Insert<T>(s: seq<T>, at: nat, x: T): (r: seq<T>)
    requires at <= |s|
    ensures |r| == |s| + 1
  {
    s[..at] + [x] + s[at..]
  }

  /** The main loop: the code points inserted so far are out, the next state is (n, i). */
  function Insertions(rest: Text, i: nat, n: int, bias: int, out: seq<int>): Option<seq<int>>
    requires i <= MAX_INT32
    decreases |rest|
  {
    if rest == [] then Some(out) else
    match ReadInteger(rest, i, 1, BASE, bias)
    case BadInteger => None
    case Read(i1, rest1) =>
      var x := |out| + 1;
      var n1 := Wrap(n + i1 / x);
      if n1 > MAX_RUNE || |out| >= MAX_OUTPUT then None
      else Insertions(rest1, i1 % x + 1, n1, Adapt(i1 - i, x, i == 0), Insert(out, i1 % x, n1))
  }

  /** The index of the last hyphen plus one, or zero. */
  function AfterLastHyphen(s: Text): (pos: nat)
    ensures pos <= |s|
    ensures pos == 0 ==> HYPHEN !in s
    ensures pos > 0 ==> s[pos - 1] == HYPHEN && HYPHEN !in s[pos..]
  {
    if s == [] then 0
    else if s[|s| - 1] == HYPHEN then |s|
    else AfterLastHyphen(s[..|s| - 1])
  }

  predicate IsRune(x: int) {
    0 <= x < 0xD800 || 0xE000 <= x <= MAX_RUNE
  }

  /** string([]rune): what is not a Unicode scalar value becomes the replacement character. */
  function ToText(runes: seq<int>): (s: Text)
    ensures |s| == |runes|
    ensures forall k :: 0 <= k < |s| ==> s[k] == if IsRune(runes[k]) then runes[k] else 0xFFFD
  {
    seq(|runes|, k requires 0 <= k < |runes| => if IsRune(runes[k]) then runes[k] else 0xFFFD)
  }

  /** What decode returns. */
  function Decoded(encoded: Text): Result {
    if encoded == [] then Ok([]) else
    var pos := AfterLastHyphen(encoded);
    if pos == 1 then InvalidLabel
    else if pos == |encoded| then Ok(encoded[..pos - 1])
    else
      match Insertions(encoded[pos..], 0, INITIAL_N, INITIAL_BIAS, if pos == 0 then [] else encoded[..pos - 1])
      case None => InvalidLabel
      case Some(runes) => Ok(ToText(runes))
  }

  method LastIndexOfHyphen(s: Text) returns (at: int)
    ensures at + 1 == AfterLastHyphen(s)
  {
    at := |s| - 1;
    while at >= 0 && s[at] != HYPHEN
      invariant -1 <= at < |s|
      invariant AfterLastHyphen(s[..at + 1]) == AfterLastHyphen(s)
    {
      assert s[..at + 1][..at] == s[..at];
      at := at - 1;
    }
    if at >= 0 {
      assert s[..at + 1][|s[..at + 1]| - 1] == HYPHEN;
    }
  }

  /** The products of decode stay in int32 below the weight limit, and each digit grows the weight. */
  lemma ProductsFit(digit: int, w: int, t: int)
    requires 0 <= digit < BASE && 1 <= w < WEIGHT_LIMIT && T_MIN <= t <= T_MAX
    ensures 0 <= digit * w <= MAX_INT32
    ensures w + 9 <= w * (BASE - t) <= MAX_INT32
  {
    MulBounds(digit, w, BASE - 1, WEIGHT_LIMIT);
    MulMonotone(10, BASE - t, w);
    MulMonotone(BASE - t, BASE - 1, w);
  }

  /** The inner loop of decode: no product leaves int32, and i < 0 is detected exactly when the sum overflows. */
  method DecodeInteger(encoded: Text, start: nat, i0: int, bias: int) returns (ok: bool, i: int, pos: nat)
    requires start < |encoded| && 0 <= i0 <= MAX_INT32 && 0 <= bias <= MAX_BIAS && |encoded| <= MAX_INT32
    ensures ok ==> start < pos <= |encoded| && 0 <= i <= MAX_INT32
    ensures ReadInteger(encoded[start..], i0, 1, BASE, bias) == if ok then Read(i, encoded[pos..]) else BadInteger
  {
    i, pos := i0, start;
    var w, k := 1, BASE;
    while true
      invariant start <= pos <= |encoded| && 0 <= i <= MAX_INT32 && 1 <= w < WEIGHT_LIMIT
      invariant k == BASE * (1 + pos - start) && 1 + pos - start <= w
      invariant ReadInteger(encoded[pos..], i, w, k, bias) == ReadInteger(encoded[start..], i0, 1, BASE, bias)
      decreases |encoded| - pos
    {
      if pos == |encoded| {
        return false, i, pos;
      }
      var d := DecodeDigit(encoded[pos]);
      if d.None? {
        return false, i, pos;
      }
      var digit := d.value;
      ghost var rest := encoded[pos..];
      assert rest[1..] == encoded[pos + 1..];
      pos := pos + 1;
      ProductsFit(digit, w, Threshold(k, bias));
      SignTestIsExact(i, digit * w);
      i := Wrap(i + Wrap(digit * w));
      if i < 0 {
        return false, i, pos;
      }
      var t := Wrap(k - bias);
      if t < T_MIN {
        t := T_MIN;
      } else if t > T_MAX {
        t := T_MAX;
      }
      if digit < t {
        return true, i, pos;
      }
      w := Wrap(w * Wrap(BASE - t));
      if w >= MAX_INT32 / BASE {
        return false, i, pos;
      }
      k := Wrap(k + BASE);
    }
  }

  /** append, copy and store: the buffer's first len entries get x at index at. */
  method InsertInPlace(a: array<int>, len: nat, at: nat, x: int)
    requires at <= len < a.Length
    modifies a
    ensures a[..len + 1] == Insert(old(a[..len]), at, x)
  {
    forall j | at <= j < len {
      a[j + 1] := a[j];
    }
    a[at] := x;
  }

  lemma SplitIndex(i: nat, x: nat)
    requires x >= 1
    ensures 0 <= i % x < x && 0 <= i / x <= i
  {
    DivMod(i, x);
    QuotientAtMost(i, x);
  }

  /** One unfolding of Insertions, with the quotient and the remainder named. */
  lemma InsertionsStep(rest: Text, i: nat, n: int, bias: int, out: seq<int>, i1: nat, rest1: Text, q: nat, at: nat)
    requires i <= MAX_INT32 && rest != [] && |out| < MAX_INT32
    requires ReadInteger(rest, i, 1, BASE, bias) == Read(i1, rest1)
    requires q == i1 / (|out| + 1) && at == i1 % (|out| + 1)
    ensures at <= |out| && i <= i1 <= MAX_INT32 && at + 1 <= MAX_INT32
    ensures Insertions(rest, i, n, bias, out)
         == if Wrap(n + q) > MAX_RUNE || |out| >= MAX_OUTPUT then None
            else Insertions(rest1, at + 1, Wrap(n + q), Adapt(i1 - i, |out| + 1, i == 0), Insert(out, at, Wrap(n + q)))
  {
    hide Adapt, Insert, Wrap, ReadInteger;
    SplitIndex(i1, |out| + 1);
  }

  /** One iteration of decode's outer loop up to the insertion: what to insert, where, and the new bias. */
  method NextInsertion(encoded: Text, pos: nat, i: int, n: int, bias: int, len: nat, ghost out: seq<int>)
    returns (ok: bool, at: int, n1: int, bias1: int, pos1: nat)
    requires pos < |encoded| < MAX_INT32 && len == |out| <= pos
    requires 0 <= i <= MAX_INT32 && InRange(n) && 0 <= bias <= MAX_BIAS
    ensures ok ==> pos < pos1 <= |encoded| && 0 <= at <= len && InRange(n1) && 0 <= bias1 <= MAX_BIAS
    ensures Insertions(encoded[pos..], i, n, bias, out)
         == if ok then Insertions(encoded[pos1..], at + 1, n1, bias1, Insert(out, at, n1)) else None
  {
    hide Adapt, Insert, ReadInteger;
    ok, at, pos1 := DecodeInteger(encoded, pos, i, bias);
    n1, bias1 := n, bias;
    if !ok {
      return;
    }
    var x := Wrap(len + 1);
    bias1 := ComputeAdapt(Wrap(at - i), x, i == 0);
    SplitIndex(at, x);
    InsertionsStep(encoded[pos..], i, n, bias, out, at, encoded[pos1..], at / x, at % x);
    n1 := Wrap(n + at / x);
    at := at % x;
    ok := !(n1 > MAX_RUNE || len >= MAX_OUTPUT);
  }

  /** The outer loop of decode: the output grows in place inside one buffer, by shifting its tail right. */
  method InsertAll(encoded: Text, start: nat, output: array<int>, len0: nat) returns (ok: bool, len: nat)
    requires |encoded| < MAX_INT32 && len0 <= start <= |encoded| == output.Length
    modifies output
    ensures ok ==> len <= output.Length
    ensures Insertions(encoded[start..], 0, INITIAL_N, INITIAL_BIAS, old(output[..len0]))
         == if ok then Some(output[..len]) else None
  {
    var pos := start;
    len := len0;
    var i, n, bias := 0, INITIAL_N, INITIAL_BIAS;
    while pos < |encoded|
      invariant 0 <= len <= pos <= |encoded|
      invariant 0 <= i <= MAX_INT32 && InRange(n) && 0 <= bias <= MAX_BIAS
      invariant Insertions(encoded[start..], 0, INITIAL_N, INITIAL_BIAS, old(output[..len0]))
             == Insertions(encoded[pos..], i, n, bias, output[..len])
    {
      var at;
      ok, at, n, bias, pos := NextInsertion(encoded, pos, i, n, bias, len, output[..len]);
      if !ok {
        return;
      }
      InsertInPlace(output, len, at, n);
      len := len + 1;
      i := Wrap(at + 1);
    }
    ok := true;
  }

  /** decode. */
  method Decode(encoded: Text) returns (r: Result)
    requires |encoded| < MAX_INT32
    ensures r == Decoded(encoded)
  {
    if encoded == [] {
      return Ok([]);
    }
    var last := LastIndexOfHyphen(encoded);
    var pos := 1 + last;
    if pos == 1 {
      return InvalidLabel;
    }
    if pos == |encoded| {
      return Ok(encoded[..|encoded| - 1]);
    }
    var output := new int[|encoded|];
    var len := 0;
    if pos != 0 {
      while len < pos - 1
        invariant 0 <= len <= pos - 1
        invariant output[..len] == encoded[..len]
      {
        output[len] := encoded[len];
        len := len + 1;
      }
    }
    var ok, len1 := InsertAll(encoded, pos, output, len);
    r := if ok then Ok(ToText(output[..len1])) else InvalidLabel;
  }
}
