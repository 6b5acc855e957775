/** Public suffix rules, the naive way to apply them, and the one-pass walk that finds the same suffix. */
module SuffixRules {
  import opened Strings

  /** Labels from the top-level domain down. */
  type Path = seq<string>

  datatype Kind = Plain | Wildcard | Exception
  datatype Rule = Rule(path: Path, kind: Kind)

  const NORMAL := 0
  const EXCEPTION := 1
  const PARENT_ONLY := 2

  /** "*.a.b" stands under a.b, "!a.b" is an exception, anything else is taken as it is. */
  function ParseRule(s: string): (r: Rule)
    ensures r.path != []
  {
    if "*." <= s then Rule(Labels(s[2..]), Wildcard)
    else if "!" <= s then Rule(Labels(s[1..]), Exception)
    else Rule(Labels(s), Plain)
  }

  // ----- naive matching -----

  predicate Matches(r: Rule, d: Path) {
    r.path <= d && (r.kind == Wildcard ==> |r.path| < |d|)
  }

  /** How many labels of a matching domain are its public suffix under this rule. */
  function Count(r: Rule): int {
    match r.kind
    case Plain => |r.path|
    case Wildcard => |r.path| + 1
    case Exception => |r.path| - 1
  }

  ghost predicate Excepted(rules: seq<Rule>, d: Path) {
    exists r :: r in rules && r.kind == Exception && Matches(r, d)
  }

  /** The public suffix of a domain has c labels: an exception wins, else the longest match, else "*". */
  ghost predicate Prevails(rules: seq<Rule>, d: Path, c: int) {
    if Excepted(rules, d) then exists r :: r in rules && r.kind == Exception && Matches(r, d) && c == Count(r)
    else if exists r :: r in rules && Matches(r, d) then
      && (exists r :: r in rules && Matches(r, d) && c == Count(r))
      && (forall r :: r in rules && Matches(r, d) ==> Count(r) <= c)
    else c == 1
  }

  /** What the public suffix list guarantees: names are not both kinds, exceptions are long and not nested. */
  ghost predicate WellFormed(rules: seq<Rule>) {
    && (forall r :: r in rules ==> r.path != [])
    && (forall r, r' :: r in rules && r' in rules && r.kind == Plain && r'.kind == Exception ==> r.path != r'.path)
    && (forall r :: r in rules && r.kind == Exception ==> |r.path| >= 2)
    && (forall r, r' :: r in rules && r' in rules && r.kind == Exception && r'.kind == Exception && r.path <= r'.path
                        ==> r.path == r'.path)
  }

  /** Well-formed rules leave no choice. */
  lemma PrevailsUnique(rules: seq<Rule>, d: Path, c: int, c': int)
    requires WellFormed(rules) && Prevails(rules, d, c) && Prevails(rules, d, c')
    ensures c == c'
  {
    if Excepted(rules, d) {
      var r :| r in rules && r.kind == Exception && Matches(r, d) && c == Count(r);
      var r' :| r' in rules && r'.kind == Exception && Matches(r', d) && c' == Count(r');
      assert r.path <= r'.path || r'.path <= r.path;
    }
  }

  // ----- what the trie of a rule list holds -----

  ghost predicate InTrie(rules: seq<Rule>, p: Path) {
    p == [] || exists r :: r in rules && p <= r.path
  }

  /** The first plain or exception rule for p decides the type of its node. */
  function TypeOf(rules: seq<Rule>, p: Path): int {
    if rules == [] then PARENT_ONLY
    else
      var r, before := rules[|rules| - 1], TypeOf(rules[..|rules| - 1], p);
      if before != PARENT_ONLY || r.path != p || r.kind == Wildcard then before
      else if r.kind == Plain then NORMAL else EXCEPTION
  }

  ghost predicate WildcardAt(rules: seq<Rule>, p: Path) {
    Rule(p, Wildcard) in rules
  }

  /** No rule for p itself comes from outside the list's ICANN section; marks says which rules come from it. */
  ghost predicate IcannAt(rules: seq<Rule>, marks: seq<bool>, p: Path)
    requires |marks| == |rules|
  {
    forall i :: 0 <= i < |rules| && rules[i].path == p ==> marks[i]
  }

  lemma {:induction false} TypeMeaning(rules: seq<Rule>, p: Path)
    ensures TypeOf(rules, p) == NORMAL ==> Rule(p, Plain) in rules
    ensures TypeOf(rules, p) == EXCEPTION ==> Rule(p, Exception) in rules
    ensures TypeOf(rules, p) == PARENT_ONLY ==> Rule(p, Plain) !in rules && Rule(p, Exception) !in rules
    ensures TypeOf(rules, p) in {NORMAL, EXCEPTION, PARENT_ONLY}
  {
    if rules != [] {
      var shorter, r := rules[..|rules| - 1], rules[|rules| - 1];
      TypeMeaning(shorter, p);
      assert rules == shorter + [r];
      assert r.path == p ==> r == Rule(p, r.kind);
    }
  }

  // ----- one walk down the trie -----

  /**
   * k labels have been consumed and c is the number of labels in the suffix so far, zero for none. The result counts
   * labels the same way.
   */
  ghost function Walk(rules: seq<Rule>, d: Path, k: nat, c: nat, wildcard: bool): nat
    requires k < |d|
    decreases |d| - k
  {
    var c1 := if wildcard then k + 1 else c;
    var p := d[..k + 1];
    if !InTrie(rules, p) then c1
    else if TypeOf(rules, p) == EXCEPTION then k
    else
      var c2 := if TypeOf(rules, p) == NORMAL then k + 1 else c1;
      if k + 1 == |d| then c2 else Walk(rules, d, k + 1, c2, WildcardAt(rules, p))
  }

  /** How many labels of d the walk goes down: to the end of the trie, or to an exception. */
  ghost function Reach(rules: seq<Rule>, d: Path, k: nat): (m: nat)
    requires k < |d|
    ensures k <= m <= |d|
    decreases |d| - k
  {
    var p := d[..k + 1];
    if !InTrie(rules, p) then k
    else if TypeOf(rules, p) == EXCEPTION || k + 1 == |d| then k + 1
    else Reach(rules, d, k + 1)
  }

  /** The rules whose match has been decided after k labels; a wildcard needs one label more than its path. */
  ghost predicate Decided(r: Rule, d: Path, k: nat) {
    Matches(r, d) && Decider(r) <= k
  }

  function Decider(r: Rule): int {
    if r.kind == Wildcard then |r.path| + 1 else |r.path|
  }

  ghost predicate BestSoFar(rules: seq<Rule>, d: Path, k: nat, c: nat) {
    && (c > 0 ==> exists r :: r in rules && Decided(r, d, k) && Count(r) == c)
    && (forall r :: r in rules && Decided(r, d, k) ==> r.kind != Exception && Count(r) <= c)
  }

  lemma {:induction false} WalkIsNaive(rules: seq<Rule>, d: Path, k: nat, c: nat, wildcard: bool)
    requires WellFormed(rules) && k < |d| && BestSoFar(rules, d, k, c)
    requires wildcard <==> WildcardAt(rules, d[..k])
    ensures
      var c' := Walk(rules, d, k, c, wildcard);
      c' <= |d| && Prevails(rules, d, if c' == 0 then 1 else c')
    decreases |d| - k
  {
    hide BestSoFar, Prevails, TypeOf, InTrie;
    var p := d[..k + 1];
    var c1 := if wildcard then k + 1 else c;
    if !InTrie(rules, p) {
      OffTheTrie(rules, d, k, c, c1);
    } else if TypeOf(rules, p) == EXCEPTION {
      ExceptionWins(rules, d, k);
    } else {
      var c2 := if TypeOf(rules, p) == NORMAL then k + 1 else c1;
      StepDown(rules, d, k, c, c1, c2);
      if k + 1 == |d| {
        Finish(rules, d, c2);
      } else {
        WalkIsNaive(rules, d, k + 1, c2, WildcardAt(rules, p));
      }
    }
  }

  lemma ExceptionWins(rules: seq<Rule>, d: Path, k: nat)
    requires WellFormed(rules) && k < |d| && TypeOf(rules, d[..k + 1]) == EXCEPTION
    ensures 1 <= k && Prevails(rules, d, k)
  {
    TypeMeaning(rules, d[..k + 1]);
    var r := Rule(d[..k + 1], Exception);
    assert r in rules && Matches(r, d) && Count(r) == k;
  }

  /** One label further: no exception was met, and the best count takes in what this label decides. */
  lemma StepDown(rules: seq<Rule>, d: Path, k: nat, c: nat, c1: nat, c2: nat)
    requires WellFormed(rules) && k < |d| && BestSoFar(rules, d, k, c)
    requires c1 == if WildcardAt(rules, d[..k]) then k + 1 else c
    requires c2 == if TypeOf(rules, d[..k + 1]) == NORMAL then k + 1 else c1
    requires TypeOf(rules, d[..k + 1]) != EXCEPTION
    ensures BestSoFar(rules, d, k + 1, c2)
  {
    var p := d[..k + 1];
    TypeMeaning(rules, p);
    DecidedNow(rules, d, k);
    var plain, wild := Rule(p, Plain), Rule(d[..k], Wildcard);
    assert Decided(plain, d, k + 1) && Count(plain) == k + 1 == Count(wild);
    assert Rule(p, Exception) !in rules;
    assert plain in rules ==> TypeOf(rules, p) == NORMAL;
    forall r | r in rules && Decided(r, d, k)
      ensures Count(r) <= k
    {
      assert r.kind != Exception;
    }
  }

  /** Leaving the trie: no longer path matches, so everything that matches has been decided. */
  lemma OffTheTrie(rules: seq<Rule>, d: Path, k: nat, c: nat, c1: nat)
    requires WellFormed(rules) && k < |d| && BestSoFar(rules, d, k, c) && !InTrie(rules, d[..k + 1])
    requires c1 == if WildcardAt(rules, d[..k]) then k + 1 else c
    ensures c1 <= |d| && Prevails(rules, d, if c1 == 0 then 1 else c1)
  {
    var p := d[..k + 1];
    forall r | r in rules && Matches(r, d)
      ensures |r.path| <= k
    {
      assert !(p <= r.path);
    }
    TypeMeaning(rules, p);
    assert forall r :: r in rules ==> r.path != p;
    StepDown(rules, d, k, c, c1, c1);
    FinishEarly(rules, d, k, c1);
  }

  lemma FinishEarly(rules: seq<Rule>, d: Path, k: nat, c: nat)
    requires k < |d| && BestSoFar(rules, d, k + 1, c)
    requires forall r :: r in rules && Matches(r, d) ==> |r.path| <= k
    requires forall r :: r in rules ==> r.path != []
    ensures c <= |d| && Prevails(rules, d, if c == 0 then 1 else c)
  {
    assert forall r :: r in rules && Matches(r, d) ==> Decided(r, d, k + 1);
    assert forall r :: r in rules && Matches(r, d) && r.kind != Exception ==> 1 <= Count(r) <= |d|;
  }

  /** What label k + 1 decides: the wildcard above it and the rules for exactly its path. */
  lemma DecidedNow(rules: seq<Rule>, d: Path, k: nat)
    requires k < |d|
    ensures forall r :: r in rules && Decided(r, d, k + 1) && !Decided(r, d, k) ==>
      r == Rule(d[..k], Wildcard) || r == Rule(d[..k + 1], Plain) || r == Rule(d[..k + 1], Exception)
    ensures Decided(Rule(d[..k], Wildcard), d, k + 1)
    ensures forall r :: Decided(r, d, k) ==> Decided(r, d, k + 1)
  {
    forall r | r in rules && Decided(r, d, k + 1) && !Decided(r, d, k)
      ensures r == Rule(d[..k], Wildcard) || r == Rule(d[..k + 1], Plain) || r == Rule(d[..k + 1], Exception)
    {
      assert r.path == d[..|r.path|];
      assert r == Rule(r.path, r.kind);
    }
  }

  lemma Finish(rules: seq<Rule>, d: Path, c: nat)
    requires BestSoFar(rules, d, |d|, c)
    requires forall r :: r in rules ==> r.path != []
    ensures c <= |d| && Prevails(rules, d, if c == 0 then 1 else c)
  {
    assert forall r :: r in rules && Matches(r, d) ==> Decided(r, d, |d|);
    assert forall r :: r in rules && Matches(r, d) && r.kind != Exception ==> 1 <= Count(r) <= |d|;
  }

  /** From the root, the walk finds the prevailing rule. */
  lemma WalkFindsSuffix(rules: seq<Rule>, d: Path)
    requires WellFormed(rules) && d != []
    ensures
      var c := Walk(rules, d, 0, 0, false);
      c <= |d| && Prevails(rules, d, if c == 0 then 1 else c)
  {
    WalkIsNaive(rules, d, 0, 0, false);
  }
}
