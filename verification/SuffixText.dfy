/** makeText of publicsuffix/gen.go: one text that contains every label. */
module SuffixText {
  import opened Strings

  // ----- what the loops keep -----

  function Sum(ss: seq<string>): nat {
    if ss == [] then 0 else |ss[0]| + Sum(ss[1..])
  }

  /** strings.Join(ss, ""). */
  function Flatten(ss: seq<string>): (s: string)
    ensures |s| == Sum(ss)
  {
    if ss == [] then "" else ss[0] + Flatten(ss[1..])
  }

  function NonEmpty(ss: seq<string>): nat {
    if ss == [] then 0 else (if ss[0] == "" then 0 else 1) + NonEmpty(ss[1..])
  }

  /** Some string of ss has l inside; the empty string is inside anything. */
  ghost predicate Covers(ss: seq<string>, l: string) {
    l == "" || exists k :: 0 <= k < |ss| && Contains(ss[k], l)
  }

  ghost predicate CoversAll(ss: seq<string>, ls: seq<string>) {
    forall i :: 0 <= i < |ls| ==> Covers(ss, ls[i])
  }

  lemma SliceOfSlice(s: string, at: nat, n: nat, b: nat, m: nat)
    requires at + n <= |s| && b + m <= n
    ensures s[at + b..at + b + m] == s[at..at + n][b..b + m]
  {
    var x, y := s[at + b..at + b + m], s[at..at + n][b..b + m];
    forall k | 0 <= k < m
      ensures x[k] == y[k]
    {
      assert s[at..at + n][b + k] == s[at + (b + k)];
    }
  }

  lemma ContainsInside(s: string, t: string, l: string, at: int)
    requires ContainsAt(s, t, at) && Contains(t, l)
    ensures Contains(s, l)
  {
    var b :| 0 <= b <= |t| && ContainsAt(t, l, b);
    SliceOfSlice(s, at, |t|, b, |l|);
    assert ContainsAt(s, l, at + b);
  }

  lemma {:induction false} SumUpdate(ss: seq<string>, k: nat, t: string)
    requires k < |ss|
    ensures Sum(ss[k := t]) == Sum(ss) - |ss[k]| + |t|
    ensures NonEmpty(ss[k := t]) == NonEmpty(ss) - (if ss[k] == "" then 0 else 1) + (if t == "" then 0 else 1)
  {
    if k > 0 {
      SumUpdate(ss[1..], k - 1, t);
      assert ss[k := t][1..] == ss[1..][k - 1 := t];
    } else {
      assert ss[k := t][1..] == ss[1..];
    }
  }

  lemma {:induction false} FlattenContains(ss: seq<string>, k: nat, l: string)
    requires k < |ss| && Contains(ss[k], l)
    ensures Contains(Flatten(ss), l)
  {
    var s, rest := Flatten(ss), Flatten(ss[1..]);
    if k == 0 {
      assert s[0..|ss[0]|] == ss[0];
      ContainsInside(s, ss[0], l, 0);
    } else {
      FlattenContains(ss[1..], k - 1, l);
      assert s[|ss[0]|..|ss[0]| + |rest|] == rest;
      ContainsInside(s, rest, l, |ss[0]|);
    }
  }

  lemma CoversUpdate(ss: seq<string>, k: nat, i: nat, t: string, ls: seq<string>)
    requires k < |ss| && i < |ss| && i != k && CoversAll(ss, ls)
    requires forall l :: Contains(ss[i], l) ==> Contains(t, l)
    requires forall l :: Contains(ss[k], l) ==> Contains(t, l)
    ensures CoversAll(ss[i := t][k := ""], ls)
  {
    var ss' := ss[i := t][k := ""];
    forall n | 0 <= n < |ls|
      ensures Covers(ss', ls[n])
    {
      var l := ls[n];
      assert Covers(ss, l);
      if l != "" {
        var m :| 0 <= m < |ss| && Contains(ss[m], l);
        if m == i || m == k {
          assert Contains(ss'[i], l);
        } else {
          assert ss'[m] == ss[m];
        }
      }
    }
  }

  // ----- sort.Strings -----

  ghost predicate Sorted(ss: seq<string>) {
    forall i, j :: 0 <= i < j < |ss| ==> !Less(ss[j], ss[i])
  }

  method Sort(ss: seq<string>) returns (r: seq<string>)
    ensures multiset(r) == multiset(ss) && Sorted(r)
  {
    hide Less;
    r := [];
    var i := 0;
    while i < |ss|
      invariant 0 <= i <= |ss|
      invariant multiset(r) == multiset(ss[..i]) && Sorted(r)
    {
      var x, k := ss[i], 0;
      while k < |r| && Less(r[k], x)
        invariant 0 <= k <= |r|
        invariant forall j :: 0 <= j < k ==> Less(r[j], x)
      {
        k := k + 1;
      }
      SortedInsert(r, k, x);
      assert r == r[..k] + r[k..];
      assert ss[..i + 1] == ss[..i] + [x];
      r := r[..k] + [x] + r[k..];
      i := i + 1;
    }
    assert ss[..|ss|] == ss;
  }

  lemma SortedInsert(r: seq<string>, k: nat, x: string)
    requires k <= |r| && Sorted(r)
    requires (forall j :: 0 <= j < k ==> Less(r[j], x)) && (k < |r| ==> !Less(r[k], x))
    ensures Sorted(r[..k] + [x] + r[k..])
  {
    hide Less;
    forall j | 0 <= j < k
      ensures !Less(x, r[j])
    {
      LessTotal(x, r[j]);
    }
    forall j | k <= j < |r|
      ensures !Less(r[j], x)
    {
      if Less(r[j], x) && j > k {
        LessTotal(r[j], r[k]);
        if r[j] != r[k] {
          LessTransitive(r[k], r[j], x);
        }
      }
    }
  }

  lemma {:induction false} SumOfMultiset(a: seq<string>, b: seq<string>)
    requires multiset(a) == multiset(b)
    ensures Sum(a) == Sum(b)
  {
    SizeOfMultiset(a);
    SizeOfMultiset(b);
    if a != [] {
      hide Sum;
      var k := Somewhere(b, a[0], a);
      var c, d := a[..0] + a[0 + 1..], b[..k] + b[k + 1..];
      SumRemove(a, 0);
      SumRemove(b, k);
      MultisetRemove(a, 0);
      MultisetRemove(b, k);
      SumOfMultiset(c, d);
    }
  }

  lemma SizeOfMultiset(a: seq<string>)
    ensures |multiset(a)| == |a|
  {
  }

  lemma Somewhere(b: seq<string>, x: string, a: seq<string>) returns (k: nat)
    requires x in a && multiset(a) == multiset(b)
    ensures k < |b| && b[k] == x
  {
    assert x in multiset(a);
    k :| 0 <= k < |b| && b[k] == x;
  }

  lemma MultisetRemove(b: seq<string>, k: nat)
    requires k < |b|
    ensures multiset(b[..k] + b[k + 1..]) == multiset(b) - multiset{b[k]}
  {
    assert b == b[..k] + [b[k]] + b[k + 1..];
  }

  lemma {:induction false} SumRemove(b: seq<string>, k: nat)
    requires k < |b|
    ensures Sum(b) == |b[k]| + Sum(b[..k] + b[k + 1..])
  {
    var c := b[..k] + b[k + 1..];
    if k > 0 {
      SumRemove(b[1..], k - 1);
      assert c[1..] == b[1..][..k - 1] + b[1..][k..];
    } else {
      assert c == b[1..];
    }
  }

  lemma CoversSame(a: seq<string>, b: seq<string>, ls: seq<string>)
    requires multiset(a) == multiset(b) && CoversAll(a, ls)
    ensures CoversAll(b, ls)
  {
    forall n | 0 <= n < |ls|
      ensures Covers(b, ls[n])
    {
      assert Covers(a, ls[n]);
      if ls[n] != "" {
        var k :| 0 <= k < |a| && Contains(a[k], ls[n]);
        assert a[k] in multiset(b);
      }
    }
  }

  /** No string twice. */
  ghost predicate Distinct(ss: seq<string>) {
    forall i, j :: 0 <= i < j < |ss| ==> ss[i] != ss[j]
  }

  lemma {:induction false} CountOnce(ss: seq<string>, x: string)
    requires forall i, j :: 0 <= i < j < |ss| && ss[i] == x ==> ss[j] != x
    ensures multiset(ss)[x] <= 1
  {
    if ss != [] {
      assert ss == [ss[0]] + ss[1..];
      CountOnce(ss[1..], x);
      assert ss[0] == x ==> forall j :: 0 <= j < |ss[1..]| ==> ss[1..][j] != x;
    }
  }

  lemma CountTwice(ss: seq<string>, i: nat, j: nat)
    requires i < j < |ss| && ss[i] == ss[j]
    ensures multiset(ss)[ss[i]] >= 2
  {
    assert ss == ss[..j] + [ss[j]] + ss[j + 1..];
    assert ss[..j][i] == ss[i];
  }

  /** Sorting keeps a string from being there twice. */
  lemma OnceStays(a: seq<string>, b: seq<string>, x: string)
    requires multiset(a) == multiset(b) && forall i, j :: 0 <= i < j < |a| && a[i] == x ==> a[j] != x
    ensures forall i, j :: 0 <= i < j < |b| && b[i] == x ==> b[j] != x
  {
    CountOnce(a, x);
    forall i, j | 0 <= i < j < |b| && b[i] == x
      ensures b[j] != x
    {
      if b[j] == x {
        CountTwice(b, i, j);
      }
    }
  }

  // ----- makeText -----

  /** No string of the list is inside another. */
  ghost predicate Apart(ss: seq<string>) {
    forall a, b :: 0 <= a < |ss| && 0 <= b < |ss| && a != b && ss[b] != "" ==> !Contains(ss[a], ss[b])
  }

  /** Each string is where it was, or has been dropped. */
  ghost predicate Thinned(ss: seq<string>, ls: seq<string>) {
    |ss| == |ls| && forall i :: 0 <= i < |ss| ==> ss[i] == ls[i] || ss[i] == ""
  }

  /** The first pair of loops: drop strings that are inside others, until nothing changes. */
  method RemoveSubstrings(labelsList: seq<string>) returns (ss: seq<string>)
    ensures Thinned(ss, labelsList) && CoversAll(ss, labelsList) && Apart(ss) && Sum(ss) <= Sum(labelsList)
  {
    hide Contains, CoversAll;
    ss := labelsList;
    CoversSelf(ss);
    var changed := true;
    while changed
      invariant Thinned(ss, labelsList) && CoversAll(ss, labelsList) && Sum(ss) <= Sum(labelsList)
      invariant !changed ==> Apart(ss)
      decreases NonEmpty(ss), changed
    {
      changed := false;
      ghost var before := NonEmpty(ss);
      var i := 0;
      while i < |ss|
        invariant 0 <= i <= |ss|
        invariant Thinned(ss, labelsList) && CoversAll(ss, labelsList) && Sum(ss) <= Sum(labelsList)
        invariant if changed then NonEmpty(ss) < before else NonEmpty(ss) == before
        invariant !changed ==> forall a :: 0 <= a < i ==> ApartFrom(ss, a, |ss|)
      {
        var s := ss[i];
        if s != "" {
          var j := 0;
          while j < |ss|
            invariant 0 <= j <= |ss|
            invariant Thinned(ss, labelsList) && CoversAll(ss, labelsList) && Sum(ss) <= Sum(labelsList)
            invariant ss[i] == s
            invariant if changed then NonEmpty(ss) < before else NonEmpty(ss) == before
            invariant !changed ==> (forall a :: 0 <= a < i ==> ApartFrom(ss, a, |ss|)) && ApartFrom(ss, i, j)
          {
            var t := ss[j];
            if i != j && t != "" && Contains(s, t) {
              changed := true;
              DropInside(ss, i, j, labelsList);
              ss := ss[j := ""];
            }
            j := j + 1;
          }
        } else {
          NothingInside(ss, i);
        }
        i := i + 1;
      }
      if !changed {
        AllApart(ss);
      }
    }
  }

  /** None of the first j strings is inside string a, but for itself. */
  ghost predicate ApartFrom(ss: seq<string>, a: nat, j: nat)
    requires a < |ss| && j <= |ss|
  {
    forall b :: 0 <= b < j && a != b && ss[b] != "" ==> !Contains(ss[a], ss[b])
  }

  lemma AllApart(ss: seq<string>)
    requires forall a :: 0 <= a < |ss| ==> ApartFrom(ss, a, |ss|)
    ensures Apart(ss)
  {
    hide Contains;
    forall a, b | 0 <= a < |ss| && 0 <= b < |ss| && a != b && ss[b] != ""
      ensures !Contains(ss[a], ss[b])
    {
      assert ApartFrom(ss, a, |ss|);
    }
  }

  lemma NothingInside(ss: seq<string>, a: nat)
    requires a < |ss| && ss[a] == ""
    ensures ApartFrom(ss, a, |ss|)
  {
  }

  lemma SameLength(s: string, t: string)
    requires Contains(s, t) && Contains(t, s)
    ensures s == t
  {
    var a :| 0 <= a <= |s| && ContainsAt(s, t, a);
  }

  lemma ContainsTransitive(s: string, t: string, l: string)
    requires Contains(s, t) && Contains(t, l)
    ensures Contains(s, l)
  {
    var at :| 0 <= at <= |s| && ContainsAt(s, t, at);
    ContainsInside(s, t, l, at);
  }

  /** A label that no other label has inside. */
  ghost predicate Outermost(ls: seq<string>, x: string) {
    x in ls && x != "" && forall y :: y in ls && y != x ==> !Contains(y, x)
  }

  /** What is left are the outermost labels, each once. */
  lemma ThinnedIs(ss: seq<string>, ls: seq<string>, x: string)
    requires Thinned(ss, ls) && CoversAll(ss, ls) && Apart(ss) && x != ""
    ensures x in ss <==> Outermost(ls, x)
    ensures forall i, j :: 0 <= i < j < |ss| && ss[i] == x ==> ss[j] != x
  {
    hide Contains;
    ContainsItself(x);
    if x in ss {
      var k :| 0 <= k < |ss| && ss[k] == x;
      forall y | y in ls && y != x
        ensures !Contains(y, x)
      {
        KeptBy(ss, ls, k, y);
      }
    }
    if Outermost(ls, x) {
      OutermostKept(ss, ls, x);
    }
  }

  lemma OutermostKept(ss: seq<string>, ls: seq<string>, x: string)
    requires Thinned(ss, ls) && CoversAll(ss, ls) && Outermost(ls, x)
    ensures x in ss
  {
    hide Contains;
    var i :| 0 <= i < |ls| && ls[i] == x;
    assert Covers(ss, ls[i]);
    var k :| 0 <= k < |ss| && Contains(ss[k], x);
    InsideNothing(x);
    assert ss[k] == ls[k];
  }

  lemma ContainsItself(x: string)
    ensures Contains(x, x)
  {
    assert ContainsAt(x, x, 0);
  }

  lemma InsideNothing(x: string)
    requires x != ""
    ensures !Contains("", x)
  {
  }

  lemma KeptBy(ss: seq<string>, ls: seq<string>, k: nat, y: string)
    requires CoversAll(ss, ls) && Apart(ss) && k < |ss| && ss[k] != "" && y in ls && y != ss[k]
    ensures !Contains(y, ss[k])
  {
    hide Contains;
    if Contains(y, ss[k]) {
      InsideNothing(ss[k]);
      var i :| 0 <= i < |ls| && ls[i] == y;
      assert Covers(ss, ls[i]);
      var m :| 0 <= m < |ss| && Contains(ss[m], y);
      ContainsTransitive(ss[m], y, ss[k]);
      if m == k {
        SameLength(ss[k], y);
      }
    }
  }

  lemma DropInside(ss: seq<string>, i: nat, j: nat, ls: seq<string>)
    requires i < |ss| && j < |ss| && i != j && ss[j] != "" && Contains(ss[i], ss[j]) && CoversAll(ss, ls)
    ensures CoversAll(ss[j := ""], ls) && Sum(ss[j := ""]) <= Sum(ss) && NonEmpty(ss[j := ""]) < NonEmpty(ss)
  {
    var s, t := ss[i], ss[j];
    var at :| 0 <= at <= |s| && ContainsAt(s, t, at);
    forall l | Contains(t, l)
      ensures Contains(s, l)
    {
      ContainsInside(s, t, l, at);
    }
    assert ss[i := s] == ss;
    CoversUpdate(ss, j, i, s, ls);
    SumUpdate(ss, j, "");
  }

  lemma CoversSelf(ss: seq<string>)
    ensures CoversAll(ss, ss)
  {
    forall i | 0 <= i < |ss|
      ensures Contains(ss[i], ss[i])
    {
      assert ContainsAt(ss[i], ss[i], 0);
    }
  }

  ghost predicate Overlap(s: string, t: string, k: int) {
    0 <= k <= |s| && k <= |t| && s[|s| - k..] == t[..k]
  }

  /** String a comes in front of string b in the loops over pairs. */
  predicate Sooner(a: int, b: int, i: int, j: int) {
    a < i || (a == i && b < j)
  }

  /** The pair that the loops settle on: the first of those with the longest overlap. */
  ghost predicate Best(ss: seq<string>, i: int, j: int, k: int) {
    && k > 0 && 0 <= i < |ss| && 0 <= j < |ss| && i != j && Overlap(ss[i], ss[j], k)
    && (forall a, b, m :: 0 <= a < |ss| && 0 <= b < |ss| && a != b && Overlap(ss[a], ss[b], m) ==> m <= k)
    && forall a, b :: 0 <= a < |ss| && 0 <= b < |ss| && a != b && Overlap(ss[a], ss[b], k) ==> !Sooner(a, b, i, j)
  }

  lemma BestUnique(ss: seq<string>, i: int, j: int, k: int, i': int, j': int, k': int)
    requires Best(ss, i, j, k) && Best(ss, i', j', k')
    ensures i == i' && j == j' && k == k'
  {
    hide Overlap;
  }

  /** No end of a string is the start of another. */
  ghost predicate NoOverlap(ss: seq<string>) {
    forall a, b, m :: 0 <= a < |ss| && 0 <= b < |ss| && a != b && Overlap(ss[a], ss[b], m) ==> m == 0
  }

  /** The longest overlap between two different strings of the list, or zero. */
  method BestOverlap(ss: seq<string>) returns (besti: int, bestj: int, bestk: nat)
    ensures if bestk > 0 then Best(ss, besti, bestj, bestk) else NoOverlap(ss)
  {
    hide Overlap;
    besti, bestj, bestk := -1, -1, 0;
    var i := 0;
    while i < |ss|
      invariant 0 <= i <= |ss|
      invariant BestSoFar(ss, i, 0, besti, bestj, bestk)
    {
      var s := ss[i];
      if s != "" {
        var j := 0;
        while j < |ss|
          invariant 0 <= j <= |ss|
          invariant BestSoFar(ss, i, j, besti, bestj, bestk)
        {
          var t := ss[j];
          if i != j {
            var k := bestk + 1;
            ghost var bestk0 := bestk;
            while k <= |s| && k <= |t|
              invariant bestk0 <= bestk < k
              invariant BestSoFar(ss, i, j, besti, bestj, bestk0) || bestk0 < bestk
              invariant bestk0 < bestk ==> besti == i && bestj == j && Overlap(s, t, bestk)
              invariant forall m :: Overlap(s, t, m) && m < k ==> m <= bestk
              invariant NothingBetter(ss, i, j, bestk0)
            {
              OverlapIs(s, t, k);
              if s[|s| - k..] == t[..k] {
                besti, bestj, bestk := i, j, k;
              }
              k := k + 1;
            }
            OverlapIsShort(s, t);
          }
          j := j + 1;
        }
      } else {
        OverlapsNothing(ss, i);
      }
      i := i + 1;
    }
    BestAtEnd(ss, besti, bestj, bestk);
  }

  lemma BestAtEnd(ss: seq<string>, besti: int, bestj: int, bestk: nat)
    requires BestSoFar(ss, |ss|, 0, besti, bestj, bestk)
    ensures if bestk > 0 then Best(ss, besti, bestj, bestk) else NoOverlap(ss)
  {
    forall a, b, m | 0 <= a < |ss| && 0 <= b < |ss| && a != b && Overlap(ss[a], ss[b], m)
      ensures 0 <= m <= bestk
    {
      assert Sooner(a, b, |ss|, 0);
    }
  }

  /** No pair in front of this one overlaps by more than k. */
  ghost predicate NothingBetter(ss: seq<string>, i: int, j: int, k: int) {
    forall a, b, m ::
      0 <= a < |ss| && 0 <= b < |ss| && a != b && Sooner(a, b, i, j) && Overlap(ss[a], ss[b], m) ==> m <= k
  }

  /** Of the pairs in front of this one, the first with the longest overlap, if any overlap. */
  ghost predicate BestSoFar(ss: seq<string>, i: int, j: int, besti: int, bestj: int, bestk: nat) {
    && NothingBetter(ss, i, j, bestk)
    && (bestk > 0 ==>
          && 0 <= besti < |ss| && 0 <= bestj < |ss| && besti != bestj && Overlap(ss[besti], ss[bestj], bestk)
          && forall a, b :: 0 <= a < |ss| && 0 <= b < |ss| && a != b && Overlap(ss[a], ss[b], bestk)
               ==> !Sooner(a, b, besti, bestj))
  }

  lemma OverlapIs(s: string, t: string, k: nat)
    requires k <= |s| && k <= |t|
    ensures Overlap(s, t, k) <==> s[|s| - k..] == t[..k]
  {
  }

  lemma OverlapIsShort(s: string, t: string)
    ensures forall m :: Overlap(s, t, m) ==> 0 <= m <= |s| && m <= |t|
  {
  }

  lemma OverlapsNothing(ss: seq<string>, i: nat)
    requires i < |ss| && ss[i] == ""
    ensures forall b, m :: 0 <= b < |ss| && Overlap(ss[i], ss[b], m) ==> m == 0
  {
  }

  lemma Merge(ss: seq<string>, i: nat, j: nat, k: nat, ls: seq<string>)
    requires i < |ss| && j < |ss| && i != j && k > 0 && Overlap(ss[i], ss[j], k) && CoversAll(ss, ls)
    ensures
      var ss' := ss[i := ss[i] + ss[j][k..]][j := ""];
      CoversAll(ss', ls) && Sum(ss') == Sum(ss) - k && NonEmpty(ss') < NonEmpty(ss)
  {
    var s, t := ss[i], ss[j];
    var u := s + t[k..];
    assert u[0..|s|] == s;
    assert u[|s| - k..|s| - k + |t|] == t by {
      assert t == t[..k] + t[k..] && s == s[..|s| - k] + s[|s| - k..];
      assert u == s[..|s| - k] + t;
    }
    forall l | Contains(s, l)
      ensures Contains(u, l)
    {
      ContainsInside(u, s, l, 0);
    }
    forall l | Contains(t, l)
      ensures Contains(u, l)
    {
      ContainsInside(u, t, l, |s| - k);
    }
    CoversUpdate(ss, j, i, u, ls);
    SumUpdate(ss, i, u);
    SumUpdate(ss[i := u], j, "");
  }

  /** String j joined to string i over k characters that they share. */
  function Joined(ss: seq<string>, i: nat, j: nat, k: nat): seq<string>
    requires i < |ss| && j < |ss| && k <= |ss[j]|
  {
    ss[i := ss[i] + ss[j][k..]][j := ""]
  }

  /** What joining the best pair again and again leads to. */
  ghost function Crushed(ss: seq<string>): seq<string>
    decreases NonEmpty(ss)
  {
    if exists i, j, k :: Best(ss, i, j, k) then
      var i, j, k :| Best(ss, i, j, k);
      Merge(ss, i, j, k, []);
      Crushed(Joined(ss, i, j, k))
    else ss
  }

  lemma CrushedStep(ss: seq<string>, i: int, j: int, k: int)
    requires Best(ss, i, j, k)
    ensures Crushed(ss) == Crushed(Joined(ss, i, j, k))
  {
    forall i', j', k' | Best(ss, i', j', k')
      ensures i' == i && j' == j && k' == k
    {
      BestUnique(ss, i, j, k, i', j', k');
    }
  }

  lemma CrushedEnd(ss: seq<string>)
    requires NoOverlap(ss)
    ensures Crushed(ss) == ss
  {
    hide Overlap;
  }

  /** The outermost labels, each once, in order. */
  ghost predicate Cleared(start: seq<string>, ls: seq<string>) {
    Sorted(start) && Distinct(start) && forall x :: x in start <==> Outermost(ls, x)
  }

  /** Sorted, and without the empty strings at its front, the thinned list is cleared. */
  lemma StartIs(ss: seq<string>, sorted: seq<string>, n: nat, ls: seq<string>)
    requires Thinned(ss, ls) && CoversAll(ss, ls) && Apart(ss)
    requires multiset(sorted) == multiset(ss) && Sorted(sorted)
    requires n <= |sorted| && (forall i :: 0 <= i < n ==> sorted[i] == "") && (n < |sorted| ==> sorted[n] != "")
    ensures Cleared(sorted[n..], ls)
  {
    hide Thinned, CoversAll, Apart, Outermost, Less;
    var start := sorted[n..];
    forall j | n <= j < |sorted|
      ensures sorted[j] != ""
    {
      EmptyIsLess(sorted[n]);
    }
    forall x | x != ""
      ensures x in start <==> Outermost(ls, x)
    {
      ThinnedIs(ss, ls, x);
      assert x in multiset(sorted) <==> x in multiset(ss);
      assert sorted == sorted[..n] + start;
    }
    forall i, j | 0 <= i < j < |start|
      ensures start[i] != start[j]
    {
      ThinnedIs(ss, ls, start[i]);
      OnceStays(ss, sorted, start[i]);
    }
    assert "" !in start && !Outermost(ls, "") by {
      NotOutermost(ls);
    }
  }

  lemma EmptyIsLess(x: string)
    requires x != ""
    ensures Less("", x)
  {
  }

  lemma NotOutermost(ls: seq<string>)
    ensures !Outermost(ls, "")
  {
  }

  /** strings.Join of a cleared list, crushed. */
  ghost predicate IsCrushed(text: string, start: seq<string>, ls: seq<string>) {
    Cleared(start, ls) && text == Flatten(Crushed(start)) && NoOverlap(Crushed(start))
  }

  /**
   * makeText: it ends, every label is in the text, and the text is no longer than the labels together. Crushed, it is
   * what is left of the outermost labels when the pair with the longest overlap is joined until nothing overlaps.
   */
  method MakeText(labelsList: seq<string>, crush: bool) returns (text: string)
    ensures forall i :: 0 <= i < |labelsList| ==> Contains(text, labelsList[i])
    ensures |text| <= Sum(labelsList)
    ensures if crush then exists start :: IsCrushed(text, start, labelsList) else text == Flatten(labelsList)
  {
    hide Thinned, Apart, CoversAll, Less, Best, Crushed, Cleared;
    if !crush {
      CoversSelf(labelsList);
      CoveredByText(labelsList, labelsList);
      return Flatten(labelsList);
    }
    var ss := RemoveSubstrings(labelsList);
    var sorted := Sort(ss);
    CoversSame(ss, sorted, labelsList);
    SumOfMultiset(ss, sorted);
    ghost var kept, n := ss, 0;
    ss := sorted;
    while |ss| > 0 && ss[0] == ""
      invariant CoversAll(ss, labelsList) && Sum(ss) <= Sum(labelsList)
      invariant n <= |sorted| && ss == sorted[n..] && forall i :: 0 <= i < n ==> sorted[i] == ""
      decreases |ss|
    {
      DropEmpty(ss, labelsList);
      ss := ss[1..];
      n := n + 1;
    }
    StartIs(kept, sorted, n, labelsList);
    ghost var start := ss;
    while true
      invariant CoversAll(ss, labelsList) && Sum(ss) <= Sum(labelsList)
      invariant Crushed(ss) == Crushed(start)
      decreases NonEmpty(ss)
    {
      var besti, bestj, bestk := BestOverlap(ss);
      if bestk > 0 {
        BestIs(ss, besti, bestj, bestk);
        Merge(ss, besti, bestj, bestk, labelsList);
        CrushedStep(ss, besti, bestj, bestk);
        ss := ss[besti := ss[besti] + ss[bestj][bestk..]];
        ss := ss[bestj := ""];
        continue;
      }
      CrushedEnd(ss);
      break;
    }
    CoveredByText(ss, labelsList);
    text := Flatten(ss);
    assert IsCrushed(text, start, labelsList);
  }

  lemma BestIs(ss: seq<string>, i: int, j: int, k: int)
    requires Best(ss, i, j, k)
    ensures k > 0 && 0 <= i < |ss| && 0 <= j < |ss| && i != j && Overlap(ss[i], ss[j], k)
  {
  }

  lemma DropEmpty(ss: seq<string>, ls: seq<string>)
    requires ss != [] && ss[0] == "" && CoversAll(ss, ls)
    ensures CoversAll(ss[1..], ls)
  {
    forall n | 0 <= n < |ls|
      ensures Covers(ss[1..], ls[n])
    {
      assert Covers(ss, ls[n]);
      if ls[n] != "" {
        var k :| 0 <= k < |ss| && Contains(ss[k], ls[n]);
        assert k > 0 && ss[1..][k - 1] == ss[k];
      }
    }
  }

  lemma CoveredByText(ss: seq<string>, ls: seq<string>)
    requires CoversAll(ss, ls)
    ensures forall i :: 0 <= i < |ls| ==> Contains(Flatten(ss), ls[i])
  {
    forall i | 0 <= i < |ls|
      ensures Contains(Flatten(ss), ls[i])
    {
      assert Covers(ss, ls[i]);
      if ls[i] == "" {
        assert ContainsAt(Flatten(ss), "", 0);
      } else {
        var k :| 0 <= k < |ss| && Contains(ss[k], ls[i]);
        FlattenContains(ss, k, ls[i]);
      }
    }
  }
}
