/** What the second result of PublicSuffix is worth. */
module SuffixIcann {
  import opened SuffixRules
  import opened SuffixTable

  /** r is one of the rules that give the domain its suffix of c labels. */
  ghost predicate Decides(rules: seq<Rule>, r: Rule, d: Path, c: int) {
    r in rules && Matches(r, d) && Count(r) == c && (Excepted(rules, d) ==> r.kind == Exception)
  }

  /** And there is no more special one. */
  ghost predicate Decisive(rules: seq<Rule>, r: Rule, d: Path, c: int) {
    Decides(rules, r, d, c) && forall r' :: Decides(rules, r', d, c) ==> |r'.path| <= |r.path|
  }

  /** The public suffix is managed by ICANN: the rule that it comes from is in the list's ICANN section. */
  ghost predicate Managed(rules: seq<Rule>, marks: seq<bool>, d: Path, c: int)
    requires |marks| == |rules|
  {
    exists i :: 0 <= i < |rules| && Decisive(rules, rules[i], d, c) && marks[i]
  }

  /** All rules for one name are in the same section. */
  ghost predicate Uniform(rules: seq<Rule>, marks: seq<bool>)
    requires |marks| == |rules|
  {
    forall i, j :: 0 <= i < |rules| && 0 <= j < |rules| && rules[i].path == rules[j].path ==> marks[i] == marks[j]
  }

  /** A rule for exactly p decides something about d. */
  ghost predicate RuleFor(rules: seq<Rule>, p: Path, d: Path) {
    exists r :: r in rules && r.path == p && Matches(r, d)
  }

  lemma {:induction false} ReachIs(rules: seq<Rule>, d: Path, k: nat)
    requires k < |d|
    ensures var m := Reach(rules, d, k);
      && (forall j :: k < j <= m ==> InTrie(rules, d[..j]))
      && (forall j :: k < j < m ==> TypeOf(rules, d[..j]) != EXCEPTION)
      && (m < |d| && InTrie(rules, d[..m + 1]) ==> k < m && TypeOf(rules, d[..m]) == EXCEPTION)
    decreases |d| - k
  {
    hide InTrie, TypeOf;
    if InTrie(rules, d[..k + 1]) && TypeOf(rules, d[..k + 1]) != EXCEPTION && k + 1 < |d| {
      ReachIs(rules, d, k + 1);
    }
  }

  /** An exception shows in the type of its node. */
  lemma ExceptionShows(rules: seq<Rule>, r: Rule)
    requires WellFormed(rules) && r in rules && r.kind == Exception
    ensures TypeOf(rules, r.path) == EXCEPTION
  {
    TypeMeaning(rules, r.path);
    assert r == Rule(r.path, Exception);
  }

  /** No rule that matches is for a longer name than the last on the way, and an exception is for that name. */
  lemma MatchesWithin(rules: seq<Rule>, d: Path, r: Rule)
    requires WellFormed(rules) && d != [] && r in rules && Matches(r, d)
    ensures var m := Reach(rules, d, 0);
      && 0 < m && (r.kind == Exception ==> |r.path| == m)
      && (|r.path| > m ==> Excepted(rules, d) && r.kind != Exception)
  {
    hide TypeOf;
    ReachIs(rules, d, 0);
    var m, j := Reach(rules, d, 0), |r.path|;
    assert r.path == d[..j];
    if j > m {
      assert d[..m + 1] <= r.path && InTrie(rules, d[..m + 1]);
      TypeMeaning(rules, d[..m]);
      var e := Rule(d[..m], Exception);
      assert e in rules && Matches(e, d) && e.path <= r.path;
    }
    if r.kind == Exception {
      ExceptionShows(rules, r);
    }
  }

  /** Where a rule is for the last name on the way, one that is decides. */
  lemma LastDecides(rules: seq<Rule>, d: Path, c: int, r: Rule)
    requires WellFormed(rules) && d != [] && Prevails(rules, d, c)
    requires r in rules && Matches(r, d) && r.path == d[..Reach(rules, d, 0)]
    ensures exists e: Rule :: e.path == r.path && Decisive(rules, e, d, c)
  {
    hide TypeOf, InTrie, WellFormed, Reach;
    var m := Reach(rules, d, 0);
    forall x | x in rules && Matches(x, d)
      ensures (x.kind == Exception ==> |x.path| == m) && (|x.path| > m ==> Excepted(rules, d) && x.kind != Exception)
      ensures x.path == d[..|x.path|]
    {
      MatchesWithin(rules, d, x);
    }
    if Excepted(rules, d) {
      var e :| e in rules && e.kind == Exception && Matches(e, d) && c == Count(e);
      assert Decisive(rules, e, d, c) && e.path == r.path;
    } else {
      var e :| e in rules && Matches(e, d) && c == Count(e);
      assert Count(r) <= c <= m + 1;
      if |e.path| == m {
        assert Decisive(rules, e, d, c);
      } else {
        assert Count(e) <= m;
        assert Decisive(rules, r, d, c);
      }
    }
  }

  /** All decisive rules are for one name. */
  lemma OneName(rules: seq<Rule>, d: Path, c: int, r: Rule, e: Rule)
    requires Decisive(rules, r, d, c) && Decisive(rules, e, d, c)
    ensures r.path == e.path
  {
    assert r.path == d[..|r.path|] && e.path == d[..|e.path|];
  }

  /**
   * What the result says. It is right where no rule matches, and where some rule is for the last name on the way. It is
   * always yes where that name has no rule of its own, being there only for longer ones, so it is wrong there exactly
   * if the suffix is not managed by ICANN. What is left is a domain that is itself under a wildcard rule: then the
   * result is what that rule says.
   */
  lemma IcannMeaning(rules: seq<Rule>, marks: seq<bool>, d: Path, c: int)
    requires WellFormed(rules) && |marks| == |rules| && Uniform(rules, marks) && d != [] && Prevails(rules, d, c)
    ensures var m := Reach(rules, d, 0); var p := d[..m];
      && (m == 0 ==> !IcannOf(rules, marks, d) && !Managed(rules, marks, d, c))
      && (RuleFor(rules, p, d) ==> (IcannOf(rules, marks, d) <==> Managed(rules, marks, d, c)))
      && (m > 0 && (forall r :: r in rules ==> r.path != p) ==> IcannOf(rules, marks, d))
      && (m > 0 && !RuleFor(rules, p, d) && (exists r :: r in rules && r.path == p) ==>
        m == |d| && forall i :: 0 <= i < |rules| && rules[i].path == p ==>
          rules[i].kind == Wildcard && (IcannOf(rules, marks, d) <==> marks[i]))
  {
    hide Reach, TypeOf, InTrie, WellFormed, Prevails;
    var m := Reach(rules, d, 0);
    var p := d[..m];
    if m == 0 {
      forall i | 0 <= i < |rules|
        ensures !Matches(rules[i], d)
      {
        if Matches(rules[i], d) {
          MatchesWithin(rules, d, rules[i]);
        }
      }
    }
    if RuleFor(rules, p, d) {
      RightAtRule(rules, marks, d, c);
    }
    if m > 0 && !RuleFor(rules, p, d) {
      forall i | 0 <= i < |rules| && rules[i].path == p
        ensures m == |d| && rules[i].kind == Wildcard
      {
        assert rules[i] in rules && !Matches(rules[i], d);
      }
    }
  }

  lemma RightAtRule(rules: seq<Rule>, marks: seq<bool>, d: Path, c: int)
    requires WellFormed(rules) && |marks| == |rules| && Uniform(rules, marks) && d != [] && Prevails(rules, d, c)
    requires RuleFor(rules, d[..Reach(rules, d, 0)], d)
    ensures IcannOf(rules, marks, d) <==> Managed(rules, marks, d, c)
  {
    hide Reach, TypeOf, InTrie, WellFormed, Prevails, Decisive;
    var m := Reach(rules, d, 0);
    var r :| r in rules && r.path == d[..m] && Matches(r, d);
    MatchesWithin(rules, d, r);
    LastDecides(rules, d, c, r);
    var e: Rule :| e.path == r.path && Decisive(rules, e, d, c);
    IsRule(rules, e, d, c);
    var i :| 0 <= i < |rules| && rules[i] == e;
    forall j | 0 <= j < |rules| && Decisive(rules, rules[j], d, c)
      ensures marks[j] == marks[i]
    {
      OneName(rules, d, c, rules[j], e);
    }
    assert IcannAt(rules, marks, d[..m]) <==> marks[i];
  }

  lemma IsRule(rules: seq<Rule>, e: Rule, d: Path, c: int)
    requires Decisive(rules, e, d, c)
    ensures e in rules
  {
  }

  // ----- a list of private rules -----

  const PRIVATE := [Rule(["com", "foo"], Plain), Rule(["com", "foo", "b", "a"], Plain)]
  const BESIDE: Path := ["com", "foo", "b", "x"]

  lemma PrivateRules()
    ensures forall r :: r in PRIVATE ==>
      r.kind == Plain && (r.path == ["com", "foo"] || r.path == ["com", "foo", "b", "a"])
    ensures Rule(["com", "foo"], Plain) in PRIVATE && Rule(["com", "foo", "b", "a"], Plain) in PRIVATE
  {
    assert PRIVATE[0] in PRIVATE && PRIVATE[1] in PRIVATE;
  }

  lemma PrivatePaths()
    ensures BESIDE[..2] == ["com", "foo"] && !(["com", "foo", "b", "a"] <= BESIDE)
    ensures BESIDE[..1] <= BESIDE[..2] <= BESIDE && BESIDE[..3] == ["com", "foo", "b", "a"][..3]
    ensures !(BESIDE <= ["com", "foo", "b", "a"])
  {
    assert "a"[0] == 'a' && "x"[0] == 'x';
    assert ["com", "foo", "b", "a"][3] == "a" && BESIDE[3] == "x";
  }

  lemma PrivateReach()
    ensures Reach(PRIVATE, BESIDE, 0) == 3
  {
    hide Reach, TypeOf, PRIVATE;
    PrivateRules();
    PrivatePaths();
    forall p: Path
      ensures TypeOf(PRIVATE, p) != EXCEPTION
    {
      TypeMeaning(PRIVATE, p);
    }
    var long := Rule(["com", "foo", "b", "a"], Plain);
    assert BESIDE[..1] <= long.path && BESIDE[..2] <= long.path && BESIDE[..3] <= long.path;
    assert BESIDE[..4] == BESIDE;
    ReachStep(PRIVATE, BESIDE, 0);
    ReachStep(PRIVATE, BESIDE, 1);
    ReachStep(PRIVATE, BESIDE, 2);
    ReachStep(PRIVATE, BESIDE, 3);
  }

  lemma PrivatePrevails()
    ensures WellFormed(PRIVATE) && Prevails(PRIVATE, BESIDE, 2)
  {
    hide PRIVATE;
    PrivateRules();
    PrivatePaths();
    var r := Rule(["com", "foo"], Plain);
    assert Matches(r, BESIDE) && Count(r) == 2;
    assert forall e :: e in PRIVATE && Matches(e, BESIDE) ==> e == r;
  }

  /** With the rules foo.com and a.b.foo.com, both private, the suffix of x.b.foo.com is foo.com, and is said to be
      managed by ICANN. */
  lemma PrivateSaidIcann()
    ensures WellFormed(PRIVATE) && Prevails(PRIVATE, BESIDE, 2)
    ensures IcannOf(PRIVATE, [false, false], BESIDE) && !Managed(PRIVATE, [false, false], BESIDE, 2)
  {
    hide Reach, Prevails, WellFormed, Decisive;
    PrivatePrevails();
    PrivateReach();
  }
}
