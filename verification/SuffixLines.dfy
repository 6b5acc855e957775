/** What the lines of the public suffix list say about the text of a domain, without labels, paths or rules. */
module SuffixLines {
  import opened Strings
  import opened SuffixRules
  import opened SuffixTable
  import opened SuffixPrinter

  // ----- domains as text -----

  /** d is x, or has x behind one of its dots. */
  predicate Under(d: string, x: string) {
    d == x || (|x| < |d| && d[|d| - |x| - 1] == '.' && d[|d| - |x|..] == x)
  }

  lemma UnderDot(z: string, x: string)
    ensures Under(z + "." + x, x)
  {
    var d := z + "." + x;
    assert d[|d| - |x|..] == x;
  }

  lemma UnderSplits(d: string, x: string)
    requires Under(d, x) && d != x
    ensures d == d[..|d| - |x| - 1] + "." + x
  {
  }

  lemma JoinSlices(z: string, x: string, i: nat)
    requires i <= |x|
    ensures var d := z + "." + x;
      && d[|z| + 1 + i..] == x[i..] && d[..|z| + 1 + i] == z + "." + x[..i] && d[..|z|] == z && d[|z|] == '.'
      && forall k :: 0 <= k < |x| ==> d[|z| + 1 + k] == x[k]
  {
  }

  lemma JoinDot(z: string, x: string)
    ensures LastDot(z + "." + x) == if LastDot(x) < 0 then |z| else |z| + 1 + LastDot(x)
  {
    hide LastDot;
    var d, dot := z + "." + x, LastDot(x);
    JoinSlices(z, x, 0);
    forall k | |z| + 1 + dot < k < |d| ensures d[k] != '.' {
      assert d[k] == x[k - |z| - 1];
    }
    LastDotIs(d, if dot < 0 then |z| else |z| + 1 + dot);
  }

  lemma {:induction false} LabelsJoin(z: string, x: string)
    ensures Labels(z + "." + x) == Labels(x) + Labels(z)
    decreases |x|
  {
    hide LastDot, Labels;
    var d, dot := z + "." + x, LastDot(x);
    LabelsStep(x);
    LabelsStep(d);
    JoinDot(z, x);
    JoinSlices(z, x, dot + 1);
    if dot >= 0 {
      JoinSlices(z, x, dot);
      LabelsJoin(z, x[..dot]);
    }
  }

  /** A label has no dot, and the labels make the text. */
  lemma {:induction false} LabelsInjective(x: string, y: string)
    requires Labels(x) == Labels(y)
    ensures x == y
    decreases |x|
  {
    hide LastDot, Labels;
    LabelsStep(x);
    LabelsStep(y);
    LabelsAre(x);
    LabelsAre(y);
    if LastDot(x) >= 0 {
      assert Labels(x)[1..] == Labels(x[..LastDot(x)]) && Labels(y)[1..] == Labels(y[..LastDot(y)]);
      LabelsInjective(x[..LastDot(x)], y[..LastDot(y)]);
      assert x == x[..LastDot(x)] + "." + Labels(x)[0] && y == y[..LastDot(y)] + "." + Labels(y)[0];
    }
  }

  lemma LabelsAre(x: string)
    ensures |Labels(x)| == 1 <==> LastDot(x) < 0
    ensures Labels(x)[0] == x[LastDot(x) + 1..]
  {
    hide LastDot, Labels;
    LabelsStep(x);
    if LastDot(x) >= 0 {
      LabelsSome(x[..LastDot(x)]);
    }
  }

  lemma UnderIsPrefix(d: string, x: string)
    ensures Under(d, x) <==> Labels(x) <= Labels(d)
  {
    hide Labels;
    if Under(d, x) && d != x {
      UnderSplits(d, x);
      LabelsJoin(d[..|d| - |x| - 1], x);
    }
    if Labels(x) <= Labels(d) {
      var c := |Labels(x)|;
      LabelsSome(x);
      OffsetLabels(d, c);
      LabelsInjective(d[Offset(d, c)..], x);
    }
  }

  lemma LabelsSome(x: string)
    ensures |Labels(x)| >= 1
  {
  }

  lemma OneLabel(a: string)
    requires '.' !in a
    ensures Labels(a) == [a]
  {
    LastDotIs(a, -1);
  }

  /** A label in front of a domain. */
  lemma InFront(a: string, x: string)
    requires '.' !in a
    ensures Labels(a + "." + x) == Labels(x) + [a]
  {
    LabelsJoin(a, x);
    OneLabel(a);
  }

  // ----- the lines -----

  predicate IsPlain(line: string) {
    !("*." <= line) && !("!" <= line)
  }

  /** d falls under an exception. */
  ghost predicate ExceptionFor(lines: seq<string>, d: string, x: string) {
    "!" + x in lines && Under(d, x)
  }

  /**
   * s ends d, and a line gives it: s itself, "*." and what follows the first label of s, or, as "*" always applies, no
   * line if s is one label.
   */
  ghost predicate Candidate(lines: seq<string>, d: string, s: string) {
    Under(d, s) && (Listed(lines, s) || Starred(lines, s) || '.' !in s)
  }

  predicate Listed(lines: seq<string>, s: string) {
    IsPlain(s) && s in lines
  }

  ghost predicate Starred(lines: seq<string>, s: string) {
    exists a, y :: StarredBy(lines, s, a, y)
  }

  predicate StarredBy(lines: seq<string>, s: string, a: string, y: string) {
    s == a + "." + y && '.' !in a && "*." + y in lines
  }

  /** x is s with a label in front of it. */
  ghost predicate OneBelow(x: string, s: string) {
    exists a :: IsOneBelow(x, s, a)
  }

  predicate IsOneBelow(x: string, s: string, a: string) {
    x == a + "." + s && '.' !in a
  }

  /** The public suffix of a domain, on the text of the lines. */
  ghost predicate IsSuffix(lines: seq<string>, d: string, s: string) {
    if exists x :: ExceptionFor(lines, d, x) then forall x :: ExceptionFor(lines, d, x) ==> OneBelow(x, s)
    else Candidate(lines, d, s) && forall s' :: Candidate(lines, d, s') ==> Under(s, s')
  }

  lemma LineIsRule(x: string)
    ensures ParseRule("!" + x) == Rule(Labels(x), Exception)
    ensures ParseRule("*." + x) == Rule(Labels(x), Wildcard)
    ensures IsPlain(x) ==> ParseRule(x) == Rule(Labels(x), Plain)
  {
    hide Labels;
    assert ("!" + x)[1..] == x && ("!" + x)[0] == '!' && !("*." <= "!" + x);
    assert ("*." + x)[2..] == x;
  }

  /** Every rule comes from a line. */
  lemma RuleHasLine(lines: seq<string>, r: Rule) returns (x: string)
    requires r in ParseAll(lines)
    ensures r.path == Labels(x)
    ensures match r.kind
      case Plain => Listed(lines, x)
      case Wildcard => "*." + x in lines
      case Exception => "!" + x in lines
  {
    hide Labels;
    var i :| 0 <= i < |lines| && r == ParseRule(lines[i]);
    var line := lines[i];
    if "*." <= line {
      x := line[2..];
      assert line == "*." + x;
    } else if "!" <= line {
      x := line[1..];
      assert line == "!" + x;
    } else {
      x := line;
    }
    assert line in lines;
  }

  lemma LineHasRule(lines: seq<string>, line: string)
    requires line in lines
    ensures ParseRule(line) in ParseAll(lines)
  {
    hide ParseRule;
    var i :| 0 <= i < |lines| && lines[i] == line;
    assert ParseAll(lines)[i] == ParseRule(line);
  }

  /** Which lists are well-formed, on their text. */
  ghost predicate WellFormedLines(lines: seq<string>) {
    && (forall x :: "!" + x in lines ==> !Listed(lines, x) && '.' in x)
    && (forall x, y :: "!" + x in lines && "!" + y in lines && Under(y, x) ==> x == y)
  }

  lemma DotsAndLabels(x: string)
    ensures |Labels(x)| >= 2 <==> '.' in x
  {
    hide Labels;
    LabelsAre(x);
    LabelsSome(x);
    if '.' in x {
      var k :| 0 <= k < |x| && x[k] == '.';
      assert LastDot(x) >= k;
    }
  }

  /** The list of rules is well-formed exactly if the list of lines is. */
  lemma WellFormedText(lines: seq<string>)
    ensures WellFormed(ParseAll(lines)) <==> WellFormedLines(lines)
  {
    if WellFormed(ParseAll(lines)) {
      TextIsWellFormed(lines);
    }
    if WellFormedLines(lines) {
      RulesAreWellFormed(lines);
    }
  }

  lemma TextIsWellFormed(lines: seq<string>)
    requires WellFormed(ParseAll(lines))
    ensures WellFormedLines(lines)
  {
    hide Labels, ParseRule, ParseAll;
    forall x | "!" + x in lines ensures !Listed(lines, x) && '.' in x {
      LineHasRule(lines, "!" + x);
      LineIsRule(x);
      DotsAndLabels(x);
      if Listed(lines, x) {
        LineHasRule(lines, x);
      }
    }
    forall x, y | "!" + x in lines && "!" + y in lines && Under(y, x) ensures x == y {
      LineHasRule(lines, "!" + x);
      LineHasRule(lines, "!" + y);
      LineIsRule(x);
      LineIsRule(y);
      UnderIsPrefix(y, x);
      LabelsInjective(x, y);
    }
  }

  lemma RulesAreWellFormed(lines: seq<string>)
    requires WellFormedLines(lines)
    ensures WellFormed(ParseAll(lines))
  {
    hide Labels, ParseRule, ParseAll, Under;
    forall r | r in ParseAll(lines) ensures r.path != [] && (r.kind == Exception ==> |r.path| >= 2) {
      var x := RuleHasLine(lines, r);
      LabelsSome(x);
      DotsAndLabels(x);
    }
    forall r, r' | r in ParseAll(lines) && r' in ParseAll(lines) && r'.kind == Exception && r.path == r'.path
      ensures r.kind != Plain
    {
      var x := RuleHasLine(lines, r);
      var y := RuleHasLine(lines, r');
      LabelsInjective(x, y);
    }
    forall r, r' | r in ParseAll(lines) && r' in ParseAll(lines) && r.kind == Exception && r'.kind == Exception
                   && r.path <= r'.path
      ensures r.path == r'.path
    {
      var x := RuleHasLine(lines, r);
      var y := RuleHasLine(lines, r');
      UnderIsPrefix(y, x);
    }
  }

  // ----- the suffix -----

  /** The suffix that naive matching gives ends the domain, and its labels are those that are counted. */
  lemma SuffixLabelsAre(rules: seq<Rule>, d: string)
    requires WellFormed(rules)
    ensures var s, c := NaiveSuffix(rules, d), SuffixLabels(rules, d);
      Under(d, s) && Labels(s) == Labels(d)[..c] && |Labels(s)| == c
  {
    hide Labels, SuffixLabels, WellFormed;
    OffsetLabels(d, SuffixLabels(rules, d));
    UnderIsPrefix(d, NaiveSuffix(rules, d));
  }

  /** Of two that end the same domain, the one with more labels has the other one behind it. */
  lemma LongerHasShorter(d: string, s: string, s': string)
    requires Under(d, s) && Under(d, s') && |Labels(s')| <= |Labels(s)|
    ensures Under(s, s')
  {
    hide Labels;
    UnderIsPrefix(d, s);
    UnderIsPrefix(d, s');
    UnderIsPrefix(s, s');
  }

  lemma ExceptionOnText(lines: seq<string>, d: string, x: string)
    requires WellFormed(ParseAll(lines)) && ExceptionFor(lines, d, x)
    ensures Excepted(ParseAll(lines), Labels(d)) && SuffixLabels(ParseAll(lines), d) == |Labels(x)| - 1
    ensures OneBelow(x, NaiveSuffix(ParseAll(lines), d))
  {
    hide Labels, ParseAll, ParseRule, Under, WellFormed, SuffixLabels;
    var rules, r := ParseAll(lines), Rule(Labels(x), Exception);
    LineHasRule(lines, "!" + x);
    LineIsRule(x);
    UnderIsPrefix(d, x);
    assert Matches(r, Labels(d));
    assert Prevails(rules, Labels(d), |Labels(x)| - 1);
    PrevailsUnique(rules, Labels(d), SuffixLabels(rules, d), |Labels(x)| - 1);
    SuffixLabelsAre(rules, d);
    var s := NaiveSuffix(rules, d);
    assert Labels(x) == Labels(s) + [Labels(x)[|Labels(s)|]];
    ParentIs(x, s);
  }

  /** What has one label more has one label in front. */
  lemma ParentIs(x: string, s: string)
    requires |Labels(x)| == |Labels(s)| + 1 && Labels(s) <= Labels(x)
    ensures OneBelow(x, s) && IsOneBelow(x, s, Labels(x)[|Labels(s)|])
  {
    hide Labels;
    UnderIsPrefix(x, s);
    UnderSplits(x, s);
    var a := x[..|x| - |s| - 1];
    LabelsJoin(a, s);
    assert x == a + "." + s;
    assert Labels(x) == Labels(s) + Labels(a);
    DotsAndLabels(a);
    OneLabel(a);
    assert IsOneBelow(x, s, a);
  }

  /** The labels that count for a candidate. */
  lemma CandidateCounts(lines: seq<string>, d: string, s: string)
    requires Candidate(lines, d, s) && '.' in s
    ensures exists r :: r in ParseAll(lines) && Matches(r, Labels(d)) && r.kind != Exception && Count(r) == |Labels(s)|
  {
    hide Labels, ParseAll, ParseRule, Under;
    UnderIsPrefix(d, s);
    if Listed(lines, s) {
      LineHasRule(lines, s);
      LineIsRule(s);
      assert Matches(Rule(Labels(s), Plain), Labels(d));
    } else {
      var a, y :| StarredBy(lines, s, a, y);
      LineHasRule(lines, "*." + y);
      LineIsRule(y);
      InFront(a, y);
      assert Matches(Rule(Labels(y), Wildcard), Labels(d));
    }
  }

  /** A rule that matches gives a candidate. */
  lemma RuleGives(lines: seq<string>, d: string, r: Rule, s: string)
    requires r in ParseAll(lines) && Matches(r, Labels(d)) && r.kind != Exception
    requires Under(d, s) && |Labels(s)| == Count(r)
    ensures Candidate(lines, d, s)
  {
    hide Labels, ParseAll, ParseRule, Under;
    var x := RuleHasLine(lines, r);
    UnderIsPrefix(d, s);
    if r.kind == Plain {
      LabelsInjective(s, x);
    } else {
      ParentIs(s, x);
      assert StarredBy(lines, s, Labels(s)[|Labels(x)|], x);
    }
  }

  lemma CandidateFits(lines: seq<string>, d: string, s: string)
    requires WellFormed(ParseAll(lines)) && !Excepted(ParseAll(lines), Labels(d)) && Candidate(lines, d, s)
    ensures |Labels(s)| <= SuffixLabels(ParseAll(lines), d)
  {
    hide Labels, ParseAll, ParseRule, Under, WellFormed, SuffixLabels;
    if '.' in s {
      CandidateCounts(lines, d, s);
      var r :| r in ParseAll(lines) && Matches(r, Labels(d)) && r.kind != Exception && Count(r) == |Labels(s)|;
      assert Prevails(ParseAll(lines), Labels(d), SuffixLabels(ParseAll(lines), d));
    } else {
      DotsAndLabels(s);
    }
  }

  lemma SuffixIsCandidate(lines: seq<string>, d: string)
    requires WellFormed(ParseAll(lines)) && !Excepted(ParseAll(lines), Labels(d))
    ensures Candidate(lines, d, NaiveSuffix(ParseAll(lines), d))
  {
    hide Labels, ParseAll, ParseRule, Under, WellFormed, SuffixLabels;
    var rules := ParseAll(lines);
    var c, s := SuffixLabels(rules, d), NaiveSuffix(rules, d);
    SuffixLabelsAre(rules, d);
    assert Prevails(rules, Labels(d), c);
    if exists r :: r in rules && Matches(r, Labels(d)) {
      var r :| r in rules && Matches(r, Labels(d)) && c == Count(r);
      assert r.kind == Exception ==> Excepted(rules, Labels(d));
      RuleGives(lines, d, r, s);
    } else {
      DotsAndLabels(s);
    }
  }

  /**
   * The suffix that naive matching of a well-formed list gives, on its text: for a name under an exception "!x" it is x
   * without its first label; for any other it is the longest of what ends the name and is a line, or "*." of a line
   * with some label for the star, or a single label.
   */
  lemma SuffixIsText(lines: seq<string>, d: string)
    requires WellFormed(ParseAll(lines))
    ensures IsSuffix(lines, d, NaiveSuffix(ParseAll(lines), d))
  {
    hide Labels, ParseAll, ParseRule, Under, WellFormed, SuffixLabels, NaiveSuffix, Candidate, OneBelow;
    var rules, s := ParseAll(lines), NaiveSuffix(ParseAll(lines), d);
    if exists x :: ExceptionFor(lines, d, x) {
      forall x | ExceptionFor(lines, d, x) ensures OneBelow(x, s) {
        ExceptionOnText(lines, d, x);
      }
    } else {
      NotExcepted(lines, d);
      SuffixIsCandidate(lines, d);
      SuffixLabelsAre(rules, d);
      forall s' | Candidate(lines, d, s') ensures Under(s, s') {
        CandidateFits(lines, d, s');
        CandidateUnder(lines, d, s');
        LongerHasShorter(d, s, s');
      }
    }
  }

  lemma CandidateUnder(lines: seq<string>, d: string, s: string)
    requires Candidate(lines, d, s)
    ensures Under(d, s)
  {
  }

  lemma ExceptedHasLine(lines: seq<string>, d: string) returns (x: string)
    requires Excepted(ParseAll(lines), Labels(d))
    ensures ExceptionFor(lines, d, x)
  {
    hide Labels, ParseAll, ParseRule, Under;
    var r :| r in ParseAll(lines) && r.kind == Exception && Matches(r, Labels(d));
    x := RuleHasLine(lines, r);
    UnderIsPrefix(d, x);
  }

  lemma NotExcepted(lines: seq<string>, d: string)
    requires !exists x :: ExceptionFor(lines, d, x)
    ensures !Excepted(ParseAll(lines), Labels(d))
  {
    hide Labels, ParseAll, ExceptionFor, Excepted;
    if Excepted(ParseAll(lines), Labels(d)) {
      var x := ExceptedHasLine(lines, d);
    }
  }

  /** There is only one such suffix. */
  lemma TextUnique(lines: seq<string>, d: string, s: string, s': string)
    requires IsSuffix(lines, d, s) && IsSuffix(lines, d, s')
    ensures s == s'
  {
    hide Candidate;
    if exists x :: ExceptionFor(lines, d, x) {
      var x :| ExceptionFor(lines, d, x);
      assert OneBelow(x, s) && OneBelow(x, s');
      var a :| IsOneBelow(x, s, a);
      var b :| IsOneBelow(x, s', b);
      assert x[|a|] == '.' && x[|b|] == '.';
      assert |a| == |b|;
      assert s == x[|a| + 1..] && s' == x[|b| + 1..];
    }
  }

  /** What EffectiveTLDPlusOne gives: the suffix with one label in front that ends the domain, and nothing exactly for a
      domain that is its own suffix. */
  lemma OneMoreIsText(rules: seq<Rule>, d: string)
    requires WellFormed(rules)
    ensures var s := NaiveSuffix(rules, d);
      match OneMore(d, SuffixLabels(rules, d))
      case Domain(name) => d != s && Under(d, name) && OneBelow(name, s)
      case CannotDerive => d == s
      case InvalidSuffix => false
  {
    hide Labels, WellFormed, SuffixLabels, NaiveSuffix;
    var c, s := SuffixLabels(rules, d), NaiveSuffix(rules, d);
    SuffixLabelsAre(rules, d);
    if c < |Labels(d)| {
      EtldPlusOneLabels(d, c);
      var name := d[Offset(d, c + 1)..];
      UnderIsPrefix(d, name);
      SuffixFrom(rules, d);
      assert IsOneBelow(name, s, Labels(d)[c]);
    } else {
      LabelsInjective(d, s);
    }
  }

  lemma SuffixFrom(rules: seq<Rule>, d: string)
    requires WellFormed(rules)
    ensures NaiveSuffix(rules, d) == d[Offset(d, SuffixLabels(rules, d))..]
  {
  }

  // ----- what the kinds of lines say -----

  /** A name under an exception. */
  lemma ExceptionLine(lines: seq<string>, d: string, a: string, s: string)
    requires WellFormed(ParseAll(lines)) && '.' !in a && "!" + (a + "." + s) in lines && Under(d, a + "." + s)
    ensures NaiveSuffix(ParseAll(lines), d) == s
  {
    hide Labels, ParseAll, ParseRule, WellFormed, NaiveSuffix, Candidate, Under;
    var x, r := a + "." + s, NaiveSuffix(ParseAll(lines), d);
    SuffixIsText(lines, d);
    assert ExceptionFor(lines, d, x);
    assert IsOneBelow(x, s, a);
    var b :| IsOneBelow(x, r, b);
    assert x[|a|] == '.' && x[|b|] == '.' && |a| == |b|;
    assert s == x[|a| + 1..] && r == x[|b| + 1..];
  }

  /** What a line or a line with a star says of a name itself, where no exception is for the name. */
  lemma OwnLine(lines: seq<string>, d: string)
    requires WellFormed(ParseAll(lines)) && (Listed(lines, d) || Starred(lines, d))
    requires forall x :: "!" + x in lines ==> !Under(d, x)
    ensures NaiveSuffix(ParseAll(lines), d) == d
  {
    hide Labels, ParseAll, ParseRule, WellFormed, NaiveSuffix, StarredBy;
    SuffixIsText(lines, d);
    assert !exists x :: ExceptionFor(lines, d, x);
    assert Under(d, d) && Candidate(lines, d, d);
    assert Under(NaiveSuffix(ParseAll(lines), d), d);
  }

  /** "*.y" and "!a.y" */
  function StarAndException(y: string, a: string): seq<string> {
    ["*." + y, "!" + (a + "." + y)]
  }

  lemma OnlyException(y: string, a: string, x: string)
    requires "!" + x in StarAndException(y, a)
    ensures x == a + "." + y
  {
    var z := a + "." + y;
    assert ("!" + x)[0] == '!' && ("*." + y)[0] == '*';
    assert ("!" + x)[1..] == x && ("!" + z)[1..] == z;
  }

  lemma NoneListed(y: string, a: string, x: string)
    ensures !Listed(StarAndException(y, a), x)
  {
  }

  lemma StarWellFormed(y: string, a: string)
    requires '.' !in a
    ensures WellFormed(ParseAll(StarAndException(y, a)))
  {
    hide ParseAll, Under, StarAndException, Listed;
    var lines, x := StarAndException(y, a), a + "." + y;
    assert x[|a|] == '.';
    forall x' | "!" + x' in lines ensures x' == x {
      OnlyException(y, a, x');
    }
    forall x' ensures !Listed(lines, x') {
      NoneListed(y, a, x');
    }
    WellFormedText(lines);
  }

  lemma LinesAre(y: string, a: string)
    ensures "!" + (a + "." + y) in StarAndException(y, a) && "*." + y in StarAndException(y, a)
  {
    assert StarAndException(y, a)[0] == "*." + y && StarAndException(y, a)[1] == "!" + (a + "." + y);
  }

  lemma UnderItself(d: string)
    ensures Under(d, d)
  {
  }

  /** Under these two lines y is the suffix of a.y and of all names below it, and b.y that of itself, for other b. */
  lemma StarAndExceptionMean(y: string, a: string, z: string, b: string)
    requires '.' !in a && '.' !in b && a != b
    ensures var rules := ParseAll(StarAndException(y, a));
      && WellFormed(rules)
      && NaiveSuffix(rules, a + "." + y) == y && NaiveSuffix(rules, z + "." + (a + "." + y)) == y
      && NaiveSuffix(rules, b + "." + y) == b + "." + y
  {
    hide ParseAll, NaiveSuffix, Under, StarAndException, WellFormed;
    var lines, x := StarAndException(y, a), a + "." + y;
    StarWellFormed(y, a);
    LinesAre(y, a);
    UnderDot(z, x);
    UnderItself(x);
    ExceptionLine(lines, x, a, y);
    ExceptionLine(lines, z + "." + x, a, y);
    assert StarredBy(lines, b + "." + y, b, y);
    forall x' | "!" + x' in lines ensures !Under(b + "." + y, x') {
      OnlyException(y, a, x');
      SiblingsApart(y, a, b);
    }
    OwnLine(lines, b + "." + y);
  }

  lemma SiblingsApart(y: string, a: string, b: string)
    requires '.' !in a && '.' !in b && a != b
    ensures !Under(b + "." + y, a + "." + y)
  {
    hide Labels;
    InFront(a, y);
    InFront(b, y);
    UnderIsPrefix(b + "." + y, a + "." + y);
    assert (Labels(y) + [a])[|Labels(y)|] == a && (Labels(y) + [b])[|Labels(y)|] == b;
  }

  /** The lines "*.ck" and "!www.ck", the domains "www.ck" and "foo.ck". */
  lemma CookIslands()
    ensures var rules := ParseAll(["*." + "ck", "!" + ("www" + "." + "ck")]);
      && WellFormed(rules) && NaiveSuffix(rules, "www" + "." + "ck") == "ck"
      && NaiveSuffix(rules, "foo" + "." + "ck") == "foo" + "." + "ck"
  {
    hide ParseAll, NaiveSuffix, WellFormed;
    StarAndExceptionMean("ck", "www", "", "foo");
  }
}
