/** The generated tables and the queries of publicsuffix/list.go on them. */
module SuffixTable {
  import opened Arithmetic
  import opened Strings
  import opened SuffixRules

  /** What gen.go prints: two arrays of uint32 words, the text and the number of top-level domains. */
  datatype Tables = Tables(nodes: seq<int>, children: seq<int>, text: string, numTLD: int)

  // Field widths, as powers of two.
  const TEXT_LENGTH := 64
  const TEXT_OFFSET := 32768
  const ICANN := 2
  const CHILDREN := 512
  const LO := 16384
  const HI := 16384
  const NODE_TYPE := 4
  const WILDCARD := 2

  const NOT_FOUND := 0xffff_ffff

  /** high << k | low for a field of k bits that low does not overflow. */
  function Field(high: int, width: int, low: int): int
    requires 0 <= low < width && 0 <= high
  {
    high * width + low
  }

  // ----- unpacking: shifts and masks -----

  function TextLength(x: int): int { x % TEXT_LENGTH }

  function TextOffset(x: int): int { x / TEXT_LENGTH % TEXT_OFFSET }

  function IcannBit(x: int): int { x / (TEXT_LENGTH * TEXT_OFFSET) % ICANN }

  function ChildrenIndex(x: int): int { x / (TEXT_LENGTH * TEXT_OFFSET) / ICANN % CHILDREN }

  function Lo(u: int): int { u % LO }

  function Hi(u: int): int { u / LO % HI }

  function NodeType(u: int): int { u / LO / HI % NODE_TYPE }

  function WildcardBit(u: int): int { u / LO / HI / NODE_TYPE % WILDCARD }

  /** The word printed for a node holds exactly its four fields. */
  lemma NodeWord(children: int, icann: int, offset: int, length: int)
    requires 0 <= children < CHILDREN && 0 <= icann < ICANN && 0 <= offset < TEXT_OFFSET && 0 <= length < TEXT_LENGTH
    ensures
      var x := Field(Field(Field(children, ICANN, icann), TEXT_OFFSET, offset), TEXT_LENGTH, length);
      && x == length + 64 * offset + 2097152 * icann + 4194304 * children && 0 <= x < 0x1_0000_0000
      && TextLength(x) == length && TextOffset(x) == offset && IcannBit(x) == icann && ChildrenIndex(x) == children
  {
    var b := Field(children, ICANN, icann);
    var a := Field(b, TEXT_OFFSET, offset);
    var x := Field(a, TEXT_LENGTH, length);
    DivModUnique(x, TEXT_LENGTH, a, length);
    DivModUnique(a, TEXT_OFFSET, b, offset);
    DivModUnique(x, TEXT_LENGTH * TEXT_OFFSET, b, offset * TEXT_LENGTH + length);
    DivModUnique(b, ICANN, children, icann);
  }

  /** The word printed for a children entry holds exactly its four fields. */
  lemma ChildrenWord(wildcard: int, nodeType: int, hi: int, lo: int)
    requires 0 <= wildcard < WILDCARD && 0 <= nodeType < NODE_TYPE && 0 <= hi < HI && 0 <= lo < LO
    ensures
      var u := Field(Field(Field(wildcard, NODE_TYPE, nodeType), HI, hi), LO, lo);
      && u == lo + 16384 * hi + 268435456 * nodeType + 1073741824 * wildcard && 0 <= u < 0x1_0000_0000
      && Lo(u) == lo && Hi(u) == hi && NodeType(u) == nodeType && WildcardBit(u) == wildcard
  {
    var b := Field(wildcard, NODE_TYPE, nodeType);
    var a := Field(b, HI, hi);
    var u := Field(a, LO, lo);
    DivModUnique(u, LO, a, lo);
    DivModUnique(a, HI, b, hi);
    DivModUnique(b, NODE_TYPE, wildcard, nodeType);
  }

  // ----- what it means for tables to hold a rule list -----

  /** The labels of each node's children and the index of the first of them in nodes. */
  datatype Layout = Layout(kids: map<Path, seq<string>>, first: map<Path, nat>)

  /** The layout's shape is the trie of the rules, each node's children in increasing order of label. */
  ghost predicate IsTrieOf(l: Layout, rules: seq<Rule>) {
    && l.first.Keys == l.kids.Keys && [] in l.kids
    && (forall p :: p in l.kids <==> InTrie(rules, p))
    && (forall p :: p in l.kids ==> Increasing(l.kids[p]))
    && (forall p, x :: p in l.kids ==> (x in l.kids[p] <==> p + [x] in l.kids))
  }

  predicate LabelIs(t: Tables, i: nat, name: string) {
    && i < |t.nodes|
    && TextLength(t.nodes[i]) == |name|
    && ContainsAt(t.text, name, TextOffset(t.nodes[i]))
  }

  /** Node i of the tables is the node of the trie at path q. */
  ghost predicate NodeIs(t: Tables, l: Layout, rules: seq<Rule>, i: nat, q: Path)
    requires q in l.kids && q in l.first && q != []
  {
    && LabelIs(t, i, q[|q| - 1])
    && ChildrenIndex(t.nodes[i]) < |t.children|
    && var u := t.children[ChildrenIndex(t.nodes[i])];
    && NodeType(u) == TypeOf(rules, q)
    && (WildcardBit(u) != 0 <==> WildcardAt(rules, q))
    && RangeIs(l, q, Lo(u), Hi(u))
  }

  ghost predicate RangeIs(l: Layout, q: Path, lo: int, hi: int)
    requires q in l.kids && q in l.first
  {
    hi == lo + |l.kids[q]| && (l.kids[q] != [] ==> lo == l.first[q])
  }

  ghost predicate Represents(t: Tables, l: Layout, rules: seq<Rule>) {
    && IsTrieOf(l, rules)
    && |t.nodes| < 0x8000_0000
    && RangeIs(l, [], 0, t.numTLD)
    && forall p, i :: p in l.kids && 0 <= i < |l.kids[p]| ==> ChildIs(t, l, rules, p, i)
  }

  /** The children of p lie side by side from its first index on. */
  ghost predicate ChildIs(t: Tables, l: Layout, rules: seq<Rule>, p: Path, i: nat)
    requires l.first.Keys == l.kids.Keys && p in l.kids && i < |l.kids[p]|
  {
    p + [l.kids[p][i]] in l.kids && NodeIs(t, l, rules, l.first[p] + i, p + [l.kids[p][i]])
  }

  /** Every node's word says whether all the rules for it are in the list's ICANN section. */
  ghost predicate IcannBits(t: Tables, l: Layout, rules: seq<Rule>, marks: seq<bool>) {
    && |marks| == |rules| && l.first.Keys == l.kids.Keys
    && forall p, i :: p in l.kids && 0 <= i < |l.kids[p]| ==> IcannBitIs(t, l, rules, marks, p, i)
  }

  ghost predicate IcannBitIs(t: Tables, l: Layout, rules: seq<Rule>, marks: seq<bool>, p: Path, i: nat)
    requires l.first.Keys == l.kids.Keys && p in l.kids && i < |l.kids[p]| && |marks| == |rules|
  {
    && l.first[p] + i < |t.nodes|
    && (IcannBit(t.nodes[l.first[p] + i]) != 0 <==> IcannAt(rules, marks, p + [l.kids[p][i]]))
  }

  // ----- find -----

  method NodeLabel(t: Tables, i: nat, ghost name: string) returns (s: string)
    requires LabelIs(t, i, name)
    ensures s == name
  {
    var x := t.nodes[i];
    var length := x % TEXT_LENGTH;
    x := x / TEXT_LENGTH;
    var offset := x % TEXT_OFFSET;
    s := t.text[offset..offset + length];
  }

  /** find: binary search in a range whose names are strictly increasing, exact in both directions. */
  method Find(t: Tables, name: string, lo0: int, hi0: int, ghost ks: seq<string>) returns (f: int)
    requires 0 <= lo0 && hi0 == lo0 + |ks| && hi0 < NOT_FOUND && Increasing(ks)
    requires forall i :: 0 <= i < |ks| ==> LabelIs(t, lo0 + i, ks[i])
    ensures f == NOT_FOUND ==> name !in ks
    ensures f != NOT_FOUND ==> lo0 <= f < hi0 && ks[f - lo0] == name
  {
    hide LabelIs, Less;
    var lo, hi := lo0, hi0;
    while lo < hi
      invariant lo0 <= lo <= hi <= hi0
      invariant forall i :: 0 <= i < lo - lo0 ==> Less(ks[i], name)
      invariant forall i :: hi - lo0 <= i < |ks| ==> Less(name, ks[i])
    {
      var mid := lo + (hi - lo) / 2;
      ghost var m := mid - lo0;
      assert LabelIs(t, lo0 + m, ks[m]);
      var s := NodeLabel(t, mid, ks[m]);
      LessTotal(s, name);
      if Less(s, name) {
        LessBelow(ks, m, name);
        lo := mid + 1;
      } else if s == name {
        return mid;
      } else {
        LessAbove(ks, m, name);
        hi := mid;
      }
    }
    f := NOT_FOUND;
    forall i | 0 <= i < |ks|
      ensures ks[i] != name
    {
      LessTotal(ks[i], name);
    }
  }

  lemma LessBelow(ks: seq<string>, m: nat, name: string)
    requires m < |ks| && Increasing(ks) && Less(ks[m], name)
    ensures forall i :: 0 <= i <= m ==> Less(ks[i], name)
  {
    forall i | 0 <= i < m
      ensures Less(ks[i], name)
    {
      LessTransitive(ks[i], ks[m], name);
    }
  }

  lemma LessAbove(ks: seq<string>, m: nat, name: string)
    requires m < |ks| && Increasing(ks) && Less(name, ks[m])
    ensures forall i :: m <= i < |ks| ==> Less(name, ks[i])
  {
    forall i | m < i < |ks|
      ensures Less(name, ks[i])
    {
      LessTransitive(name, ks[m], ks[i]);
    }
  }

  // ----- PublicSuffix -----

  /** The suffix that naive matching gives a domain. */
  ghost function NaiveSuffix(rules: seq<Rule>, domain: string): string
    requires WellFormed(rules)
  {
    domain[Offset(domain, SuffixLabels(rules, domain))..]
  }

  /** How many labels it has. */
  ghost function SuffixLabels(rules: seq<Rule>, domain: string): (c: nat)
    requires WellFormed(rules)
    ensures 1 <= c <= |Labels(domain)| && Prevails(rules, Labels(domain), c)
  {
    WalkFindsSuffix(rules, Labels(domain));
    var w := Walk(rules, Labels(domain), 0, 0, false);
    assert Prevails(rules, Labels(domain), if w == 0 then 1 else w);
    var c: nat :| 1 <= c <= |Labels(domain)| && Prevails(rules, Labels(domain), c);
    c
  }

  /** The domain with its last k labels and the dots before them cut off. */
  ghost function Remaining(domain: string, k: nat): string
    requires k < |Labels(domain)|
  {
    if k == 0 then domain
    else
      OffsetStep(domain, k);
      domain[..Offset(domain, k) - 1]
  }

  lemma RemainingLabels(domain: string, k: nat)
    requires k < |Labels(domain)|
    ensures Labels(Remaining(domain, k)) == Labels(domain)[k..]
    ensures |Remaining(domain, k)| + 1 == Offset(domain, k)
    ensures LastDot(Remaining(domain, k)) + 1 == Offset(domain, k + 1)
  {
    hide LastDot, Labels;
    if k > 0 {
      OffsetStep(domain, k);
    }
  }

  /** One round of the loop in PublicSuffix cuts off the next label. */
  lemma RemainingStep(domain: string, k: nat)
    requires k < |Labels(domain)|
    ensures
      var s := Remaining(domain, k); var dot := LastDot(s);
      && s[dot + 1..] == Labels(domain)[k]
      && dot + 1 == Offset(domain, k + 1)
      && |s| + 1 == Offset(domain, k)
      && (dot == -1 <==> k + 1 == |Labels(domain)|)
      && (dot >= 0 ==> s[..dot] == Remaining(domain, k + 1))
  {
    hide LastDot, Labels;
    RemainingLabels(domain, k);
    var s := Remaining(domain, k);
    LabelsStep(s);
    assert Labels(s)[0] == Labels(domain)[k];
    if LastDot(s) >= 0 {
      assert |Labels(s)| == 1 + |Labels(s[..LastDot(s)])|;
      OffsetAtMost(domain, k);
      assert s[..LastDot(s)] == domain[..LastDot(s)];
    }
  }

  lemma OffsetAtMost(domain: string, k: nat)
    requires k + 1 <= |Labels(domain)|
    ensures Offset(domain, k + 1) < Offset(domain, k) <= |domain| + 1
  {
    RemainingLabels(domain, k);
  }

  // ----- the walk over the tables is the walk over the trie -----

  lemma ChildName(t: Tables, l: Layout, rules: seq<Rule>, p: Path, i: nat)
    requires l.first.Keys == l.kids.Keys && p in l.kids && i < |l.kids[p]|
    requires ChildIs(t, l, rules, p, i)
    ensures LabelIs(t, l.first[p] + i, l.kids[p][i]) && l.first[p] + i < |t.nodes|
  {
    hide TypeOf;
    var q := p + [l.kids[p][i]];
    assert q[|q| - 1] == l.kids[p][i];
  }

  /** A node without the next name among its children ends the walk; otherwise the child found is the next node. */
  lemma NextNode(t: Tables, l: Layout, rules: seq<Rule>, p: Path, x: string)
    requires Represents(t, l, rules) && p in l.kids
    ensures l.first.Keys == l.kids.Keys
    ensures InTrie(rules, p + [x]) <==> x in l.kids[p]
    ensures Increasing(l.kids[p])
    ensures l.kids[p] != [] ==> l.first[p] + |l.kids[p]| <= |t.nodes|
    ensures forall i :: 0 <= i < |l.kids[p]| ==>
      ChildIs(t, l, rules, p, i) && LabelIs(t, l.first[p] + i, l.kids[p][i])
  {
    hide ChildIs, LabelIs, Increasing, RangeIs;
    forall i | 0 <= i < |l.kids[p]|
      ensures LabelIs(t, l.first[p] + i, l.kids[p][i]) && l.first[p] + i < |t.nodes|
    {
      ChildName(t, l, rules, p, i);
    }
    if l.kids[p] != [] {
      var last := |l.kids[p]| - 1;
      assert LabelIs(t, l.first[p] + last, l.kids[p][last]);
    }
  }

  /** Looking up the next label in the node at p: not found, or the word that describes the child. */
  method Descend(t: Tables, name: string, lo: int, hi: int, ghost l: Layout, ghost rules: seq<Rule>,
                 ghost marks: seq<bool>, ghost p: Path)
    returns (found: bool, icann: bool, u: int)
    requires Represents(t, l, rules) && p in l.kids && RangeIs(l, p, lo, hi) && |marks| == |rules|
    ensures found <==> InTrie(rules, p + [name])
    ensures found ==>
      && p + [name] in l.kids
      && NodeType(u) == TypeOf(rules, p + [name])
      && (WildcardBit(u) != 0 <==> WildcardAt(rules, p + [name]))
      && RangeIs(l, p + [name], Lo(u), Hi(u))
      && (IcannBits(t, l, rules, marks) ==> (icann <==> IcannAt(rules, marks, p + [name])))
  {
    hide Represents, LabelIs, TypeOf, InTrie, Increasing, IcannAt, IcannBit;
    NextNode(t, l, rules, p, name);
    if lo == hi {
      return false, false, 0;
    }
    NodesBound(t, l, rules);
    var f := Find(t, name, lo, hi, l.kids[p]);
    if f == NOT_FOUND {
      return false, false, 0;
    }
    assert ChildIs(t, l, rules, p, f - lo);
    assert IcannBits(t, l, rules, marks) ==> IcannBitIs(t, l, rules, marks, p, f - lo);
    found, icann, u := true, IcannBit(t.nodes[f]) != 0, t.children[ChildrenIndex(t.nodes[f])];
  }

  lemma NodesBound(t: Tables, l: Layout, rules: seq<Rule>)
    requires Represents(t, l, rules)
    ensures |t.nodes| < 0x8000_0000
  {
  }

  ghost function OffsetOrEnd(domain: string, c: nat): int
    requires c <= |Labels(domain)|
  {
    if c == 0 then |domain| else Offset(domain, c)
  }

  /** One unfolding of Walk. */
  lemma WalkStep(rules: seq<Rule>, d: Path, k: nat, c: nat, wildcard: bool)
    requires k < |d|
    ensures
      var c1 := if wildcard then k + 1 else c;
      var p := d[..k] + [d[k]];
      p == d[..k + 1] &&
      Walk(rules, d, k, c, wildcard) ==
        if !InTrie(rules, p) then c1
        else if TypeOf(rules, p) == EXCEPTION then k
        else
          var c2 := if TypeOf(rules, p) == NORMAL then k + 1 else c1;
          if k + 1 == |d| then c2 else Walk(rules, d, k + 1, c2, WildcardAt(rules, p))
  {
    assert d[..k] + [d[k]] == d[..k + 1];
  }

  /** The second result of PublicSuffix: what the last name says that the walk gets to. */
  ghost predicate IcannOf(rules: seq<Rule>, marks: seq<bool>, d: Path)
    requires d != [] && |marks| == |rules|
  {
    SaysIcann(rules, marks, d, Reach(rules, d, 0))
  }

  /** What the name of the last m labels says; the root says no. */
  ghost predicate SaysIcann(rules: seq<Rule>, marks: seq<bool>, d: Path, m: nat)
    requires m <= |d| && |marks| == |rules|
  {
    m > 0 && IcannAt(rules, marks, d[..m])
  }

  lemma SaysNext(rules: seq<Rule>, marks: seq<bool>, d: Path, k: nat)
    requires k < |d| && |marks| == |rules|
    ensures !SaysIcann(rules, marks, d, 0)
    ensures SaysIcann(rules, marks, d, k + 1) <==> IcannAt(rules, marks, d[..k] + [d[k]])
  {
    assert d[..k] + [d[k]] == d[..k + 1];
  }

  /** One unfolding of Reach. */
  lemma ReachStep(rules: seq<Rule>, d: Path, k: nat)
    requires k < |d|
    ensures
      var p := d[..k] + [d[k]];
      p == d[..k + 1] &&
      Reach(rules, d, k) ==
        if !InTrie(rules, p) then k
        else if TypeOf(rules, p) == EXCEPTION || k + 1 == |d| then k + 1
        else Reach(rules, d, k + 1)
  {
    assert d[..k] + [d[k]] == d[..k + 1];
  }

  /** PublicSuffix: over tables that hold well-formed rules it returns the suffix that naive matching gives, and what
      the last name on the way says of the list's sections. */
  method PublicSuffix(t: Tables, domain: string, ghost l: Layout, ghost rules: seq<Rule>, ghost marks: seq<bool>)
    returns (publicSuffix: string, icann: bool)
    requires Represents(t, l, rules) && WellFormed(rules) && |marks| == |rules|
    ensures publicSuffix == NaiveSuffix(rules, domain)
    ensures IcannBits(t, l, rules, marks) ==> (icann <==> IcannOf(rules, marks, Labels(domain)))
  {
    hide Represents, NodeType, WildcardBit, Lo, Hi, Labels, LastDot, TypeOf, InTrie, Walk, Prevails, Remaining,
         WildcardAt, WellFormed, RangeIs, NaiveSuffix, SuffixLabels, Offset, IcannAt, IcannBits, Reach, SaysIcann;
    var lo, hi := 0, t.numTLD;
    var s, suffix, wildcard := domain, |domain|, false;
    icann := false;
    ghost var d, k: nat, c: nat := Labels(domain), 0, 0;
    ghost var w, m := Walk(rules, d, 0, 0, false), Reach(rules, d, 0);
    ghost var bits := IcannBits(t, l, rules, marks);
    RootRange(t, l, rules);
    RemainingStart(domain);
    SaysNext(rules, marks, d, 0);
    while true
      invariant k < |d| && c <= k && s == Remaining(domain, k)
      invariant suffix == OffsetOrEnd(domain, c)
      invariant d[..k] in l.kids && RangeIs(l, d[..k], lo, hi)
      invariant Walk(rules, d, k, c, wildcard) == w && Reach(rules, d, k) == m
      invariant bits ==> (icann <==> SaysIcann(rules, marks, d, k))
      decreases |d| - k
    {
      var dot := ComputeLastDot(s);
      RemainingStep(domain, k);
      WalkStep(rules, d, k, c, wildcard);
      ReachStep(rules, d, k);
      SaysNext(rules, marks, d, k);
      if wildcard {
        suffix := 1 + dot;
        c := k + 1;
      }
      var found, icann1, u := Descend(t, s[1 + dot..], lo, hi, l, rules, marks, d[..k]);
      if !found {
        break;
      }
      icann, lo, hi := icann1, Lo(u), Hi(u);
      if NodeType(u) == NORMAL {
        suffix := 1 + dot;
        c := k + 1;
      } else if NodeType(u) == EXCEPTION {
        suffix := 1 + |s|;
        c := k;
        ExceptionIsBelow(rules, d, k);
        break;
      }
      wildcard := WildcardBit(u) != 0;
      if dot == -1 {
        break;
      }
      s := s[..dot];
      k := k + 1;
    }
    assert c == w;
    publicSuffix := CutSuffix(domain, suffix, rules, w);
  }

  /** The end of PublicSuffix. */
  method CutSuffix(domain: string, suffix: int, ghost rules: seq<Rule>, ghost w: nat) returns (publicSuffix: string)
    requires WellFormed(rules) && w == Walk(rules, Labels(domain), 0, 0, false) && w <= |Labels(domain)|
    requires suffix == OffsetOrEnd(domain, w)
    ensures publicSuffix == NaiveSuffix(rules, domain)
  {
    hide Labels, LastDot, Walk, WellFormed, NaiveSuffix, Offset;
    SuffixIs(rules, domain, w);
    if suffix == |domain| {
      var last := ComputeLastDot(domain);
      return domain[1 + last..];
    }
    return domain[suffix..];
  }

  lemma RootRange(t: Tables, l: Layout, rules: seq<Rule>)
    requires Represents(t, l, rules)
    ensures l.first.Keys == l.kids.Keys && [] in l.kids && RangeIs(l, [], 0, t.numTLD)
  {
  }

  lemma RemainingStart(domain: string)
    ensures Remaining(domain, 0) == domain
  {
  }

  lemma ExceptionIsBelow(rules: seq<Rule>, d: Path, k: nat)
    requires WellFormed(rules) && k < |d| && TypeOf(rules, d[..k] + [d[k]]) == EXCEPTION
    ensures 1 <= k
  {
    TypeMeaning(rules, d[..k] + [d[k]]);
  }

  /** What the loop leaves in suffix names the prevailing number of labels, the end of the domain standing for one. */
  lemma SuffixIs(rules: seq<Rule>, domain: string, w: nat)
    requires WellFormed(rules) && w == Walk(rules, Labels(domain), 0, 0, false)
    ensures w <= |Labels(domain)|
    ensures OffsetOrEnd(domain, w) == |domain| ==> NaiveSuffix(rules, domain) == domain[LastDot(domain) + 1..]
    ensures OffsetOrEnd(domain, w) != |domain| ==>
      0 <= OffsetOrEnd(domain, w) <= |domain| && NaiveSuffix(rules, domain) == domain[OffsetOrEnd(domain, w)..]
  {
    hide Labels, Walk, Prevails;
    WalkFindsSuffix(rules, Labels(domain));
    var c := SuffixLabels(rules, domain);
    PrevailsUnique(rules, Labels(domain), c, if w == 0 then 1 else w);
    if w >= 2 {
      OffsetAtMost(domain, w - 1);
      OffsetBelow(domain, w);
    }
  }

  lemma OffsetBelow(domain: string, c: nat)
    requires 2 <= c <= |Labels(domain)|
    ensures Offset(domain, c) < |domain|
    decreases c
  {
    OffsetAtMost(domain, c - 1);
    OffsetAtMost(domain, 0);
    if c > 2 {
      OffsetBelow(domain, c - 1);
    }
  }

  /** A suffix of whole labels starts at the start of the domain or after a dot, and what precedes it is known. */
  lemma SuffixStart(domain: string, c: nat)
    requires 1 <= c <= |Labels(domain)|
    ensures Offset(domain, c) <= |domain|
    ensures Offset(domain, c) == 0 <==> c == |Labels(domain)|
    ensures Offset(domain, c) > 0 ==>
      && domain[Offset(domain, c) - 1] == '.'
      && LastDot(domain[..Offset(domain, c) - 1]) + 1 == Offset(domain, c + 1)
  {
    OffsetLabels(domain, c);
    if c < |Labels(domain)| {
      OffsetStep(domain, c);
    }
  }

  datatype Etld = Domain(name: string) | CannotDerive | InvalidSuffix

  /** One label more than the last c of a domain, if it has another. */
  ghost function OneMore(domain: string, c: nat): Etld
    requires 1 <= c <= |Labels(domain)|
  {
    if c < |Labels(domain)| then Domain(domain[Offset(domain, c + 1)..]) else CannotDerive
  }

  /** The checks of EffectiveTLDPlusOne on a suffix of c whole labels. */
  lemma OneMoreIs(domain: string, c: nat, suffix: string)
    requires 1 <= c <= |Labels(domain)| && suffix == domain[Offset(domain, c)..]
    ensures |domain| <= |suffix| ==> OneMore(domain, c) == CannotDerive
    ensures |domain| > |suffix| ==>
      var i := |domain| - |suffix| - 1;
      && domain[i] == '.'
      && OneMore(domain, c) == Domain(domain[LastDot(domain[..i]) + 1..])
  {
    hide Labels, LastDot, Offset, NaiveSuffix;
    SuffixStart(domain, c);
    var at := Offset(domain, c);
    assert |suffix| == |domain| - at;
    if at > 0 {
      assert |domain| - |suffix| - 1 == at - 1;
      assert LastDot(domain[..at - 1]) + 1 == Offset(domain, c + 1);
    }
  }

  /** EffectiveTLDPlusOne: one label more than the public suffix, or no such label; never an invalid suffix. */
  method EffectiveTLDPlusOne(t: Tables, domain: string, ghost l: Layout, ghost rules: seq<Rule>) returns (r: Etld)
    requires Represents(t, l, rules) && WellFormed(rules)
    ensures r == OneMore(domain, SuffixLabels(rules, domain)) && r != InvalidSuffix
  {
    hide Represents, Labels, LastDot, Offset, Prevails, SuffixLabels, OneMore;
    var suffix, _ := PublicSuffix(t, domain, l, rules, seq(|rules|, _ => true));
    OneMoreIs(domain, SuffixLabels(rules, domain), suffix);
    if |domain| <= |suffix| {
      return CannotDerive;
    }
    var i := |domain| - |suffix| - 1;
    if domain[i] != '.' {
      return InvalidSuffix;
    }
    var dot := ComputeLastDot(domain[..i]);
    r := Domain(domain[1 + dot..]);
  }

  /** What that name is made of: the suffix's labels and one more. */
  lemma EtldPlusOneLabels(domain: string, c: nat)
    requires 1 <= c < |Labels(domain)|
    ensures
      var name := domain[Offset(domain, c + 1)..];
      && Labels(name) == Labels(domain)[..c + 1]
      && '.' !in Labels(domain)[c]
      && name == Labels(domain)[c] + "." + domain[Offset(domain, c)..]
  {
    hide Labels, LastDot;
    OffsetLabels(domain, c + 1);
    OffsetLabels(domain, c);
    RemainingStep(domain, c);
    var s := Remaining(domain, c);
    var dot := LastDot(s);
    assert forall k :: dot < k < |s| ==> s[k] != '.';
    assert domain[Offset(domain, c) - 1] == '.';
  }
}
