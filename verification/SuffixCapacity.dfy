/** Which rule lists fit into the tables of publicsuffix/gen.go. */
module SuffixCapacity {
  import opened Strings
  import opened SuffixRules
  import opened SuffixTable
  import opened SuffixGenerator

  // ----- the condition, on the rules alone -----

  /** The names that rules speak of: their paths and everything above them. */
  ghost function Names(rules: seq<Rule>): (s: set<Path>)
    ensures forall p :: p in s <==> p != [] && InTrie(rules, p)
  {
    if rules == [] then {}
    else
      var s := Names(rules[1..]) + Prefixes(rules[0].path);
      assert forall p :: p != [] ==> (InTrie(rules, p) <==> InTrie(rules[1..], p) || p <= rules[0].path) by {
        assert forall r :: r in rules <==> r == rules[0] || r in rules[1..];
      }
      s
  }

  ghost function Prefixes(path: Path): (s: set<Path>)
    ensures forall p :: p in s <==> p != [] && p <= path
  {
    var s := set k | 1 <= k <= |path| :: path[..k];
    assert forall p :: p != [] && p <= path ==> p == path[..|p|];
    s
  }

  /** The names that have others below them. */
  ghost function Zones(rules: seq<Rule>): set<Path> {
    set p | p in Names(rules) && HasBelow(rules, p)
  }

  ghost predicate HasBelow(rules: seq<Rule>, p: Path) {
    exists r :: r in rules && p < r.path
  }

  /** How many names with others below them there is room for behind the predefined entries. */
  const MAX_ZONES := 506

  /** There are not too many zones, and if there are any not too many names. */
  ghost predicate Fits(rules: seq<Rule>) {
    |Zones(rules)| <= MAX_ZONES && (Zones(rules) == {} || |Names(rules)| < HI)
  }

  // ----- the trie's nodes are the names -----

  ghost predicate KidsOf(kids: Kids, rules: seq<Rule>) {
    Closed(kids) && forall p :: p in kids <==> InTrie(rules, p)
  }

  lemma KidsAreNames(kids: Kids, rules: seq<Rule>)
    requires KidsOf(kids, rules)
    ensures [] in kids && kids.Keys - {[]} == Names(rules) && Inner(kids, kids.Keys) == Zones(rules)
  {
    hide InTrie;
    RootInTrie(rules);
    forall q | q in kids && q != []
      ensures kids[q] != [] <==> HasBelow(rules, q)
    {
      BelowIsChild(kids, rules, q);
    }
  }

  lemma RootInTrie(rules: seq<Rule>)
    ensures InTrie(rules, [])
  {
  }

  lemma BelowIsChild(kids: Kids, rules: seq<Rule>, q: Path)
    requires KidsOf(kids, rules) && q in kids
    ensures kids[q] != [] <==> HasBelow(rules, q)
  {
    if kids[q] != [] {
      ChildIsBelow(kids, rules, q, kids[q][0]);
    }
    if HasBelow(rules, q) {
      var r :| r in rules && q < r.path;
      OneFurther(q, r.path);
      InTrieBy(rules, q + [r.path[|q|]], r);
    }
  }

  lemma ChildIsBelow(kids: Kids, rules: seq<Rule>, q: Path, x: string)
    requires KidsOf(kids, rules) && q in kids && x in kids[q]
    ensures HasBelow(rules, q)
  {
    var c := q + [x];
    assert InTrie(rules, c) && c != [];
    var r :| r in rules && c <= r.path;
    FurtherIsLonger(q, x, r.path);
  }

  lemma OneFurther(q: Path, p: Path)
    requires q < p
    ensures q + [p[|q|]] <= p
  {
    assert q + [p[|q|]] == p[..|q| + 1];
  }

  lemma FurtherIsLonger(q: Path, x: string, p: Path)
    requires q + [x] <= p
    ensures q < p
  {
    assert (q + [x])[..|q|] == q;
  }

  lemma InTrieBy(rules: seq<Rule>, p: Path, r: Rule)
    requires r in rules && p <= r.path
    ensures InTrie(rules, p)
  {
  }

  // ----- counting -----

  ghost predicate AllDifferent(s: seq<Path>) {
    forall i, j :: 0 <= i < j < |s| ==> s[i] != s[j]
  }

  lemma {:induction false} DifferentCount(s: seq<Path>, t: set<Path>)
    requires AllDifferent(s) && forall i :: 0 <= i < |s| ==> s[i] in t
    ensures |s| <= |t|
    ensures (forall x :: x in t ==> x in s) ==> |s| == |t|
  {
    if s == [] {
      if forall x :: x in t ==> x in s {
        assert t == {};
      }
    } else {
      var last, front := s[|s| - 1], s[..|s| - 1];
      DifferentCount(front, t - {last});
      if forall x :: x in t ==> x in s {
        assert forall x :: x in t - {last} ==> x in front;
      }
    }
  }

  /** What has been numbered is all different. */
  lemma NumberedDiffer(slots: Slots, order: seq<Path>, processed: set<Path>)
    requires Numbered(slots, order, processed)
    ensures AllDifferent(order) && forall k :: 0 <= k < |order| ==> order[k] in slots && order[k] != []
  {
    forall i, j | 0 <= i < j < |order|
      ensures order[i] != order[j]
    {
      assert slots[order[i]].node == i && slots[order[j]].node == j;
    }
  }

  // ----- exactly the rules that fit are laid out in full -----

  lemma LaidOutFits(kids: Kids, attrs: map<Path, NodeKind>, slots: Slots, enc: seq<int>, order: seq<Path>,
                    rules: seq<Rule>)
    requires KidsOf(kids, rules) && Progress(kids, attrs, slots, enc, order, kids.Keys)
    requires Tracked(kids, slots, enc, order, kids.Keys)
    ensures Fits(rules) && |order| == |Names(rules)| && |enc| == |PREDEFINED| + |Zones(rules)|
  {
    hide Closed, Done;
    KidsAreNames(kids, rules);
    NumberedDiffer(slots, order, kids.Keys);
    forall q | q in kids && q != []
      ensures q in order
    {
      Numbers(kids, slots, order, q);
    }
    DifferentCount(order, Names(rules));
  }

  lemma Numbers(kids: Kids, slots: Slots, order: seq<Path>, q: Path)
    requires Closed(kids) && slots.Keys == kids.Keys && q in kids && q != []
    requires forall p, i :: p in kids && 0 <= i < |kids[p]| ==> InPlace(kids, slots, order, p, i)
    ensures q in order
  {
    var p, x := Parent(q), q[|q| - 1];
    assert q == p + [x];
    assert p in kids && x in kids[p];
    var i :| 0 <= i < |kids[p]| && kids[p][i] == x;
    assert InPlace(kids, slots, order, p, i);
  }

  lemma BrokenDoesNotFit(kids: Kids, attrs: map<Path, NodeKind>, slots: Slots, enc: seq<int>, order: seq<Path>,
                         processed: set<Path>, p: Path, rules: seq<Rule>)
    requires KidsOf(kids, rules) && Breaks(kids, attrs, slots, enc, order, processed, p)
    ensures !Fits(rules)
  {
    hide Done, Closed, InPlace;
    KidsAreNames(kids, rules);
    assert p in Zones(rules);
    if |enc| >= CHILDREN {
      InnerStep(kids, processed, p);
      InnerMore(kids, processed + {p}, kids.Keys);
    } else {
      BlockIsNew(kids, attrs, slots, enc, order, processed, p);
      DifferentCount(order + Block(kids, p), Names(rules));
    }
  }

  lemma InnerMore(kids: Kids, s: set<Path>, t: set<Path>)
    requires s <= t
    ensures |Inner(kids, s)| <= |Inner(kids, t)|
  {
    Smaller(Inner(kids, s), Inner(kids, t));
  }

  lemma {:induction false} Smaller(s: set<Path>, t: set<Path>)
    requires s <= t
    ensures |s| <= |t|
  {
    if s != {} {
      var x :| x in s;
      Smaller(s - {x}, t - {x});
    }
  }

  /** The children that have been numbered last are none of those before. */
  lemma BlockIsNew(kids: Kids, attrs: map<Path, NodeKind>, slots: Slots, enc: seq<int>, order: seq<Path>,
                   processed: set<Path>, p: Path)
    requires Closed(kids) && Breaks(kids, attrs, slots, enc, order, processed, p)
    ensures AllDifferent(order + Block(kids, p))
    ensures forall k :: 0 <= k < |order + Block(kids, p)| ==>
      (order + Block(kids, p))[k] in kids && (order + Block(kids, p))[k] != []
  {
    hide Done, InPlace, Closed;
    NumberedDiffer(slots, order, processed);
    var all := order + Block(kids, p);
    forall k | 0 <= k < |all|
      ensures all[k] in slots && slots[all[k]].node == k && all[k] != []
    {
      if k >= |order| {
        assert all[k] == p + [kids[p][k - |order|]];
      }
    }
    forall i, j | 0 <= i < j < |all|
      ensures all[i] != all[j]
    {
      assert slots[all[i]].node == i && slots[all[j]].node == j;
    }
  }

  // ----- lists that overflow -----

  ghost predicate Different(xs: seq<string>) {
    forall i, j :: 0 <= i < j < |xs| ==> xs[i] != xs[j]
  }

  function OneBelow(xs: seq<string>): (lines: seq<string>)
    ensures |lines| == |xs| && forall i :: 0 <= i < |xs| ==> lines[i] == "a." + xs[i]
  {
    seq(|xs|, i requires 0 <= i < |xs| => "a." + xs[i])
  }

  lemma LineIs(x: string)
    requires '.' !in x
    ensures ParseRule("a." + x) == Rule([x, "a"], Plain)
    ensures |x| > 0 && x[0] != '!' ==> ParseRule(x) == Rule([x], Plain)
  {
    var s := "a." + x;
    LastDotIs(s, 1);
    LastDotIs("a", -1);
    LastDotIs(x, -1);
    LabelsStep(s);
    LabelsStep("a");
    LabelsStep(x);
    assert s[2..] == x && s[..1] == "a";
    assert !("*." <= s) && !("!" <= s);
    StarHasDot(x);
  }

  lemma StarHasDot(x: string)
    ensures "*." <= x ==> '.' in x
  {
    if "*." <= x {
      assert x[1] == '.';
    }
  }

  /** The names a.x of more than 506 different top-level domains x do not fit. */
  lemma TooManyZones(xs: seq<string>, rules: seq<Rule>)
    requires Different(xs) && |xs| > 506 && forall i :: 0 <= i < |xs| ==> '.' !in xs[i]
    requires |rules| == |xs| && forall i :: 0 <= i < |xs| ==> rules[i] == ParseRule(OneBelow(xs)[i])
    ensures !Fits(rules)
  {
    hide InTrie, ParseRule;
    var tops := seq(|xs|, i requires 0 <= i < |xs| => [xs[i]]);
    forall i | 0 <= i < |xs|
      ensures tops[i] in Zones(rules)
    {
      LineIs(xs[i]);
      ZoneAbove(rules, rules[i], xs[i]);
    }
    forall i, j | 0 <= i < j < |tops|
      ensures tops[i] != tops[j]
    {
      assert tops[i][0] == xs[i] && tops[j][0] == xs[j];
    }
    DifferentCount(tops, Zones(rules));
  }

  lemma ZoneAbove(rules: seq<Rule>, r: Rule, x: string)
    requires r in rules && r.path == [x, "a"]
    ensures [x] in Zones(rules)
  {
    assert [x] < r.path && InTrie(rules, [x]);
  }

  /** Nor do 16383 different top-level domains, if there is a name below one of them. */
  lemma TooManyNames(xs: seq<string>, rules: seq<Rule>)
    requires Different(xs) && |xs| >= 16383
    requires forall i :: 0 <= i < |xs| ==> '.' !in xs[i] && xs[i] != "" && xs[i][0] != '!'
    requires |rules| == |xs| + 1 && rules[|xs|] == ParseRule("a." + xs[0])
    requires forall i :: 0 <= i < |xs| ==> rules[i] == ParseRule(xs[i])
    ensures !Fits(rules)
  {
    hide ParseRule;
    var last := rules[|xs|];
    LineIs(xs[0]);
    ZoneAbove(rules, last, xs[0]);
    var names := seq(|xs|, i requires 0 <= i < |xs| => [xs[i]]) + [[xs[0], "a"]];
    forall k | 0 <= k < |names|
      ensures names[k] in Names(rules)
    {
      if k < |xs| {
        LineIs(xs[k]);
        assert names[k] <= rules[k].path && InTrie(rules, names[k]);
      } else {
        assert names[k] <= last.path && InTrie(rules, names[k]);
      }
    }
    forall i, j | 0 <= i < j < |names|
      ensures names[i] != names[j]
    {
      if j < |xs| {
        assert names[i][0] == xs[i] && names[j][0] == xs[j];
      } else {
        assert |names[i]| == 1 && |names[j]| == 2;
      }
    }
    DifferentCount(names, Names(rules));
  }
}
