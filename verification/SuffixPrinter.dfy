/** printNode and printReal of publicsuffix/gen.go: the tables, and why they hold the rules. */
module SuffixPrinter {
  import opened Strings
  import opened SuffixRules
  import opened SuffixTable
  import opened SuffixText
  import opened SuffixTrie
  import opened SuffixGenerator
  import opened SuffixCapacity

  type Encoding = map<string, int>

  // ----- label encoding -----

  /** A label's word says where in the text it is and how long. */
  ghost predicate Encodes(text: string, name: string, word: int) {
    exists offset :: 0 <= offset < TEXT_OFFSET && |name| < TEXT_LENGTH && ContainsAt(text, name, offset) &&
                     word == Field(offset, TEXT_LENGTH, |name|)
  }

  ghost predicate EncodesAll(text: string, labels: set<string>, le: Encoding) {
    forall x :: x in labels ==> x in le && Encodes(text, x, le[x]) && 0 <= le[x] < TEXT_LENGTH * TEXT_OFFSET
  }

  /** A label is short enough and starts early enough in the text to be encoded. */
  ghost predicate Encodable(text: string, name: string) {
    |name| < TEXT_LENGTH && exists offset :: 0 <= offset < TEXT_OFFSET && ContainsAt(text, name, offset)
  }

  lemma NotContained(text: string, name: string)
    requires !Contains(text, name)
    ensures !Encodable(text, name)
  {
    if |name| < TEXT_LENGTH {
      forall offset: nat
        ensures !ContainsAt(text, name, offset)
      {
        assert ContainsAt(text, name, offset) ==> offset <= |text|;
      }
    }
  }

  /** The loop of printReal over the labels: an error when a label is missing from the text or a field is too small. */
  method EncodeLabels(text: string, labelsList: seq<string>) returns (ok: bool, le: Encoding)
    ensures ok ==> EncodesAll(text, (set x | x in labelsList), le)
    ensures ok <==> forall x :: x in labelsList ==> Encodable(text, x)
  {
    le := map[];
    var i := 0;
    while i < |labelsList|
      invariant 0 <= i <= |labelsList|
      invariant forall j :: 0 <= j < i ==>
        labelsList[j] in le && Encodes(text, labelsList[j], le[labelsList[j]]) &&
        0 <= le[labelsList[j]] < TEXT_LENGTH * TEXT_OFFSET && Encodable(text, labelsList[j])
    {
      var name := labelsList[i];
      var offset := Index(text, name);
      if offset < 0 {
        assert name in labelsList && !Encodable(text, name) by {
          NotContained(text, name);
        }
        return false, le;
      }
      if offset >= TEXT_OFFSET || |name| >= TEXT_LENGTH {
        assert name in labelsList && !Encodable(text, name);
        return false, le;
      }
      le := le[name := Field(offset, TEXT_LENGTH, |name|)];
      assert Encodes(text, name, le[name]);
      i := i + 1;
    }
    ok := true;
  }

  /** Short labels that take up less than 32768 characters altogether can all be encoded. */
  lemma SmallIsEncodable(text: string, ls: seq<string>)
    requires |text| <= Sum(ls) < TEXT_OFFSET && forall x :: x in ls ==> |x| < TEXT_LENGTH && Contains(text, x)
    ensures forall x :: x in ls ==> Encodable(text, x)
  {
    forall x | x in ls
      ensures Encodable(text, x)
    {
      var at :| 0 <= at <= |text| && ContainsAt(text, x, at);
    }
  }

  // ----- printNode -----

  /** The word printed for a node. */
  function Word(le: Encoding, name: string, icann: bool, childrenIndex: nat): int {
    var low := if name in le && 0 <= le[name] < TEXT_LENGTH * TEXT_OFFSET then le[name] else 0;
    Field(Field(childrenIndex, ICANN, if icann then 1 else 0), TEXT_LENGTH * TEXT_OFFSET, low)
  }

  /** ws is the word of every node. */
  ghost predicate WordsAre(trie: Trie, le: Encoding, ws: map<Path, int>)
    reads trie, trie.at.Values
  {
    ws.Keys == trie.at.Keys &&
    forall q :: q in trie.at ==> ws[q] == Word(le, trie.at[q].name, trie.at[q].icann, trie.at[q].childrenIndex)
  }

  ghost function Words(ws: map<Path, int>, qs: seq<Path>): (r: seq<int>)
    ensures |r| == |qs| && forall k :: 0 <= k < |r| ==> qs[k] in ws ==> r[k] == ws[qs[k]]
  {
    seq(|qs|, k requires 0 <= k < |qs| => if qs[k] in ws then ws[qs[k]] else 0)
  }

  lemma KidCount(trie: Trie, n: Node, p: Path)
    requires trie.Valid() && p in trie.at && n == trie.at[p]
    ensures p in trie.kids && |n.children| == |trie.kids[p]|
  {
    ghost var v := trie.Viewed();
    assert ChildrenAre(v, p);
  }

  lemma KidAt(trie: Trie, n: Node, p: Path, i: nat)
    requires trie.Valid() && p in trie.at && n == trie.at[p] && i < |n.children|
    ensures p in trie.kids && |n.children| == |trie.kids[p]|
    ensures p + [trie.kids[p][i]] in trie.at && n.children[i] == trie.at[p + [trie.kids[p][i]]]
  {
    ghost var v := trie.Viewed();
    assert ChildrenAre(v, p);
  }

  lemma TrieClosed(trie: Trie)
    requires trie.Valid()
    ensures trie.at.Keys == trie.kids.Keys && Closed(trie.kids)
    ensures [] in trie.at && trie.at[[]] == trie.root
  {
    ghost var v := trie.Viewed();
    forall p, x | p in v.at && x in v.kids[p]
      ensures p + [x] in v.at
    {
      assert ChildrenAre(v, p);
    }
  }

  lemma NameAt(trie: Trie, q: Path)
    requires trie.Valid() && q in trie.at && q != []
    ensures trie.at[q].name == q[|q| - 1] && q[|q| - 1] in trie.labels
  {
    ghost var v := trie.Viewed();
    assert trie.Shape();
    hide *;
    NameInView(v, trie.root, trie.labels, q);
    assert v.name[q] == trie.at[q].name;
  }

  lemma NameInView(v: View, root: Node, labels: set<string>, q: Path)
    requires WellShaped(v, root, labels) && q in v.at && q != []
    ensures q in v.name && v.name[q] == q[|q| - 1] && q[|q| - 1] in labels
  {
    hide ChildrenAre;
    assert Parent(q) + [q[|q| - 1]] == q;
  }

  /** printNode: one word for each child, in order. */
  method PrintNode(trie: Trie, n: Node, le: Encoding, out0: seq<int>, ghost p: Path, ghost ws: map<Path, int>)
    returns (out: seq<int>)
    requires trie.Valid() && p in trie.at && n == trie.at[p] && WordsAre(trie, le, ws)
    ensures trie.Valid() && WordsAre(trie, le, ws)
    ensures p in trie.kids && out == out0 + Words(ws, Block(trie.kids, p))
  {
    hide Trie.Valid, Increasing, Block;
    KidCount(trie, n, p);
    ghost var b := Block(trie.kids, p);
    out := out0;
    var i := 0;
    while i < |n.children|
      invariant 0 <= i <= |n.children| == |b|
      invariant out == out0 + Words(ws, b[..i])
    {
      var c := n.children[i];
      KidAt(trie, n, p, i);
      assert b[..i + 1] == b[..i] + [b[i]];
      out := out + [Word(le, c.name, c.icann, c.childrenIndex)];
      i := i + 1;
    }
    assert b[..|b|] == b;
  }

  /** walk with printNode: the words come in the order in which assignIndexes numbered the nodes. */
  method PrintWalk(trie: Trie, n: Node, le: Encoding, out0: seq<int>, ghost p: Path, ghost h: nat,
                   ghost ws: map<Path, int>)
    returns (out: seq<int>)
    requires trie.Valid() && p in trie.at && n == trie.at[p] && WordsAre(trie, le, ws)
    requires p in trie.kids && Shallow(trie.kids, p, h)
    ensures trie.Valid() && WordsAre(trie, le, ws)
    ensures Closed(trie.kids) && out == out0 + Words(ws, Preorder(trie.kids, p, h))
    decreases h, 1
  {
    hide Trie.Valid, Closed, Shallow, Block, Preorder, Rest, Increasing, Words, Partial, WordsAre, Completes;
    TrieClosed(trie);
    PreorderIs(trie.kids, p, h);
    KidCount(trie, n, p);
    out := PrintNode(trie, n, le, out0, p, ws);
    if |n.children| != 0 {
      CompletesFirst(ws, out0, Block(trie.kids, p), Rest(trie.kids, p, 0, h - 1));
      out := PrintBelow(trie, n, le, out, p, h, ws, out0 + Words(ws, Preorder(trie.kids, p, h)));
    }
  }

  /** The loop of walk over the children. */
  method PrintBelow(trie: Trie, n: Node, le: Encoding, out0: seq<int>, ghost p: Path, ghost h: nat,
                    ghost ws: map<Path, int>, ghost want: seq<int>)
    returns (out: seq<int>)
    requires trie.Valid() && p in trie.at && n == trie.at[p] && WordsAre(trie, le, ws) && h > 0
    requires Closed(trie.kids) && p in trie.kids && Shallow(trie.kids, p, h)
    requires Completes(ws, out0, Rest(trie.kids, p, 0, h - 1), want)
    ensures trie.Valid() && WordsAre(trie, le, ws) && out == want
    decreases h, 0
  {
    hide Trie.Valid, Closed, Shallow, Block, Preorder, Rest, Increasing, Words, Partial, WordsAre, Completes;
    KidCount(trie, n, p);
    RestEnd(trie.kids, p, h - 1);
    ghost var k := trie.kids;
    out := out0;
    var i := 0;
    while i < |n.children|
      invariant 0 <= i <= |n.children| == |k[p]| && trie.Valid() && WordsAre(trie, le, ws)
      invariant Completes(ws, out, Rest(k, p, i, h - 1), want)
    {
      ghost var c := p + [k[p][i]];
      VisitChild(ws, k, p, h, i, c, out, want);
      KidAt(trie, n, p, i);
      out := PrintWalk(trie, n.children[i], le, out, c, h - 1, ws);
      i := i + 1;
    }
    CompletesLast(ws, out, want);
  }

  /** What is printed and the words for what is still to be visited make up what is wanted. */
  ghost predicate Completes(ws: map<Path, int>, out: seq<int>, rest: seq<Path>, want: seq<int>) {
    out + Words(ws, rest) == want
  }

  lemma WordsConcat(ws: map<Path, int>, a: seq<Path>, b: seq<Path>)
    ensures Words(ws, a + b) == Words(ws, a) + Words(ws, b)
  {
  }

  lemma CompletesFirst(ws: map<Path, int>, out: seq<int>, a: seq<Path>, b: seq<Path>)
    ensures Completes(ws, out + Words(ws, a), b, out + Words(ws, a + b))
  {
    WordsConcat(ws, a, b);
  }

  lemma CompletesStep(ws: map<Path, int>, out: seq<int>, a: seq<Path>, b: seq<Path>, want: seq<int>)
    requires Completes(ws, out, a + b, want)
    ensures Completes(ws, out + Words(ws, a), b, want)
  {
    WordsConcat(ws, a, b);
  }

  lemma VisitChild(ws: map<Path, int>, kids: Kids, p: Path, h: nat, i: nat, c: Path, out: seq<int>, want: seq<int>)
    requires Closed(kids) && p in kids && i < |kids[p]| && c == p + [kids[p][i]] && Shallow(kids, p, h) && h > 0
    requires Completes(ws, out, Rest(kids, p, i, h - 1), want)
    ensures c in kids && Shallow(kids, c, h - 1)
    ensures Completes(ws, out + Words(ws, Preorder(kids, c, h - 1)), Rest(kids, p, i + 1, h - 1), want)
  {
    hide Closed, Shallow, Preorder, Rest, Words, Partial, Completes;
    ShallowBelow(kids, p, h, i);
    RestStep(kids, p, i, h - 1);
    CompletesStep(ws, out, Preorder(kids, c, h - 1), Rest(kids, p, i + 1, h - 1), want);
  }

  lemma CompletesLast(ws: map<Path, int>, out: seq<int>, want: seq<int>)
    requires Completes(ws, out, [], want)
    ensures out == want
  {
  }

  // ----- every node is visited -----

  lemma {:induction false} InPreorder(kids: Kids, p: Path, h: nat, q: Path)
    requires Closed(kids) && p in kids && q in kids && p < q && Shallow(kids, p, h)
    ensures q in Preorder(kids, p, h)
    decreases h
  {
    hide Closed, Shallow, Preorder, Rest, Partial;
    NextLabel(kids, p, q);
    var i :| 0 <= i < |kids[p]| && kids[p][i] == q[|p|];
    var c := p + [kids[p][i]];
    PreorderIs(kids, p, h);
    assert q[..|p| + 1] == c;
    if q == c {
      assert Block(kids, p)[i] == q;
    } else {
      ShallowBelow(kids, p, h, i);
      InPreorder(kids, c, h - 1, q);
      InRest(kids, p, 0, i, h - 1, q);
    }
  }

  lemma {:induction false} InRest(kids: Kids, p: Path, j: nat, i: nat, h: nat, q: Path)
    requires Closed(kids) && p in kids && j <= i < |kids[p]| && p + [kids[p][i]] in kids
    requires q in Preorder(kids, p + [kids[p][i]], h)
    ensures q in Rest(kids, p, j, h)
    decreases i - j
  {
    hide Closed, Preorder, Rest, Partial;
    RestStep(kids, p, j, h);
    if j < i {
      InRest(kids, p, j + 1, i, h, q);
    }
  }

  // ----- why the printed tables hold the rules -----

  /** The printed word of a node gives back its name and its entry in the children table. */
  lemma WordHolds(text: string, le: Encoding, name: string, icann: bool, code: nat)
    requires name in le && Encodes(text, name, le[name]) && 0 <= le[name] < TEXT_LENGTH * TEXT_OFFSET
    requires code < CHILDREN
    ensures
      var x := Word(le, name, icann, code);
      && TextLength(x) == |name| && ContainsAt(text, name, TextOffset(x)) && ChildrenIndex(x) == code
      && IcannBit(x) == if icann then 1 else 0
  {
    hide TextLength, TextOffset, ChildrenIndex, IcannBit;
    var offset :| 0 <= offset < TEXT_OFFSET && |name| < TEXT_LENGTH && ContainsAt(text, name, offset) &&
                  le[name] == Field(offset, TEXT_LENGTH, |name|);
    NodeWord(code, if icann then 1 else 0, offset, |name|);
  }

  /** The trie after assignIndexes and the words after printNode, as values. */
  ghost predicate Printed(kids: Kids, attrs: map<Path, NodeKind>, slots: Slots, enc: seq<int>, order: seq<Path>,
                          ws: map<Path, int>, nodes: seq<int>) {
    && Closed(kids) && kids.Keys == attrs.Keys == slots.Keys == ws.Keys && [] in kids
    && (forall q :: q in kids ==> Done(kids, attrs, slots, enc, q))
    && (forall q :: q in kids && q != [] ==> q in order)
    && (forall k :: 0 <= k < |order| ==> order[k] in slots && slots[order[k]].node == k)
    && nodes == Words(ws, order)
  }

  /** Every node's word is at its own number. */
  lemma NodeAtItsIndex(kids: Kids, attrs: map<Path, NodeKind>, slots: Slots, enc: seq<int>, order: seq<Path>,
                       ws: map<Path, int>, nodes: seq<int>, q: Path)
    requires Printed(kids, attrs, slots, enc, order, ws, nodes) && q in kids && q != []
    ensures slots[q].node < |nodes| && nodes[slots[q].node] == ws[q]
  {
    hide Done, Closed;
    var k :| 0 <= k < |order| && order[k] == q;
  }

  /** No two nodes are printed at the same number, and at each number a node is printed. */
  lemma OneSlotEach(kids: Kids, attrs: map<Path, NodeKind>, slots: Slots, enc: seq<int>, order: seq<Path>,
                    ws: map<Path, int>, nodes: seq<int>, q: Path, r: Path, k: nat)
    requires Printed(kids, attrs, slots, enc, order, ws, nodes)
    requires q in kids && r in kids && q != [] && r != [] && k < |nodes|
    ensures slots[q].node == slots[r].node ==> q == r
    ensures exists p :: p in kids && slots[p].node == k && nodes[k] == ws[p]
  {
    hide Done, Closed;
    var i :| 0 <= i < |order| && order[i] == q;
    var j :| 0 <= j < |order| && order[j] == r;
    assert order[k] in kids && slots[order[k]].node == k;
  }

  ghost function FirstOf(slots: Slots): (first: map<Path, nat>)
    ensures first.Keys == slots.Keys && forall p :: p in first ==> first[p] == slots[p].first
  {
    map p | p in slots :: slots[p].first
  }

  lemma ChildPrinted(t: Tables, rules: seq<Rule>, kids: Kids, attrs: map<Path, NodeKind>, slots: Slots,
                     order: seq<Path>, ws: map<Path, int>, le: Encoding, p: Path, i: nat)
    requires Printed(kids, attrs, slots, t.children, order, ws, t.nodes)
    requires p in kids && i < |kids[p]| && p + [kids[p][i]] in kids
    requires
      var q := p + [kids[p][i]];
      && attrs[q] == NodeKind(TypeOf(rules, q), WildcardAt(rules, q))
      && kids[p][i] in le && Encodes(t.text, kids[p][i], le[kids[p][i]])
      && 0 <= le[kids[p][i]] < TEXT_LENGTH * TEXT_OFFSET
      && exists icann :: ws[q] == Word(le, kids[p][i], icann, slots[q].code)
    ensures ChildIs(t, Layout(kids, FirstOf(slots)), rules, p, i)
  {
    hide TextLength, TextOffset, ChildrenIndex, NodeType, WildcardBit, Lo, Hi, TypeOf, WildcardAt, Word, Closed, Words,
         Encodes, NodeIs;
    var q := p + [kids[p][i]];
    assert Done(kids, attrs, slots, t.children, p) && Done(kids, attrs, slots, t.children, q);
    NodeAtItsIndex(kids, attrs, slots, t.children, order, ws, t.nodes, q);
    var icann :| ws[q] == Word(le, kids[p][i], icann, slots[q].code);
    CodedCode(kids, attrs, slots, t.children, q);
    WordHolds(t.text, le, kids[p][i], icann, slots[q].code);
    assert q[|q| - 1] == kids[p][i];
    EntryIs(t, rules, kids, attrs, slots, slots[p].first + i, q);
  }

  lemma CodedCode(kids: Kids, attrs: map<Path, NodeKind>, slots: Slots, enc: seq<int>, q: Path)
    requires q in kids && q in slots && q in attrs && Coded(kids, attrs, slots, enc, q)
    ensures slots[q].code < |enc| && slots[q].code < CHILDREN
  {
  }

  /** A node whose word refers to its own entry is described by that entry. */
  lemma EntryIs(t: Tables, rules: seq<Rule>, kids: Kids, attrs: map<Path, NodeKind>, slots: Slots, i: nat, q: Path)
    requires q in kids && q in attrs && q != [] && slots.Keys == kids.Keys && LabelIs(t, i, q[|q| - 1])
    requires Coded(kids, attrs, slots, t.children, q) && ChildrenIndex(t.nodes[i]) == slots[q].code
    requires attrs[q] == NodeKind(TypeOf(rules, q), WildcardAt(rules, q))
    ensures NodeIs(t, Layout(kids, FirstOf(slots)), rules, i, q)
  {
    hide LabelIs, ChildrenIndex, NodeType, WildcardBit, Lo, Hi, TypeOf, WildcardAt;
  }

  lemma RootRangePrinted(kids: Kids, attrs: map<Path, NodeKind>, slots: Slots, enc: seq<int>, order: seq<Path>,
                         ws: map<Path, int>, nodes: seq<int>, h: nat)
    requires Printed(kids, attrs, slots, enc, order, ws, nodes)
    requires Shallow(kids, [], h) && order == Preorder(kids, [], h)
    ensures RangeIs(Layout(kids, FirstOf(slots)), [], 0, |kids[[]]|)
  {
    hide Coded, Closed, Words;
    if kids[[]] != [] {
      PreorderIs(kids, [], h);
      assert order[0] == Block(kids, [])[0] == [] + [kids[[]][0]];
      assert Done(kids, attrs, slots, enc, []);
      assert slots[order[0]].node == slots[[]].first + 0;
    }
  }

  // ----- printReal and main1 -----

  function ParseAll(lines: seq<string>): (rules: seq<Rule>)
    ensures |rules| == |lines| && forall i :: 0 <= i < |rules| ==> rules[i] == ParseRule(lines[i])
  {
    seq(|lines|, i requires 0 <= i < |lines| => ParseRule(lines[i]))
  }

  function Longest(rules: seq<Rule>): (h: nat)
    ensures forall r :: r in rules ==> |r.path| <= h
  {
    if rules == [] then 0
    else
      var h := Longest(rules[1..]);
      assert forall r :: r in rules ==> r == rules[0] || r in rules[1..];
      if |rules[0].path| > h then |rules[0].path| else h
  }

  lemma TrieShallow(trie: Trie)
    requires trie.Valid()
    ensures Shallow(trie.kids, [], Longest(trie.rules))
  {
    hide WellShaped, Longest;
    TrieClosed(trie);
    forall q | q in trie.kids
      ensures |q| <= Longest(trie.rules)
    {
      assert InTrie(trie.rules, q);
    }
  }

  /** The labels of all rules. */
  ghost function AllLabels(rules: seq<Rule>): set<string> {
    set r, x | r in rules && x in r.path :: x
  }

  lemma MoreLabels(rules: seq<Rule>, r: Rule)
    ensures AllLabels(rules + [r]) == AllLabels(rules) + (set x | x in r.path)
  {
    assert forall r' :: r' in rules + [r] <==> r' in rules || r' == r;
  }

  /** The rules of the list, in the trie. */
  method BuildTrie(lines: seq<string>, icann: seq<bool>) returns (trie: Trie)
    requires |icann| == |lines|
    ensures fresh(trie) && fresh(trie.at.Values) && trie.Valid() && trie.rules == ParseAll(lines)
    ensures trie.Unassigned() && trie.labels == AllLabels(trie.rules) && trie.Marked() && trie.marks == icann
  {
    hide Trie.Valid, Trie.Unassigned, Trie.Marked;
    trie := new Trie();
    var i := 0;
    while i < |lines|
      invariant 0 <= i <= |lines| && fresh(trie) && fresh(trie.at.Values) && trie.Valid() && trie.Unassigned()
      invariant trie.rules == ParseAll(lines[..i]) && trie.labels == AllLabels(trie.rules)
      invariant trie.Marked() && trie.marks == icann[..i]
    {
      assert lines[..i + 1] == lines[..i] + [lines[i]];
      MoreLabels(trie.rules, ParseRule(lines[i]));
      trie.AddRule(lines[i], icann[i]);
      assert trie.rules == ParseAll(lines[..i + 1]);
      i := i + 1;
    }
    assert lines[..|lines|] == lines && icann[..|lines|] == icann;
  }

  /** ls lists each label once, in order. */
  ghost predicate ListOf(ls: seq<string>, labels: set<string>) {
    Sorted(ls) && Distinct(ls) && forall x :: x in ls <==> x in labels
  }

  /** labelsList: the labels of labelsMap, sorted. */
  method ListLabels(labels: set<string>) returns (labelsList: seq<string>)
    ensures ListOf(labelsList, labels)
  {
    hide Sorted;
    var left, list := labels, [];
    while left != {}
      invariant left <= labels && Distinct(list) && forall x :: x in list <==> x in labels && x !in left
      decreases left
    {
      var x :| x in left;
      left, list := left - {x}, list + [x];
    }
    labelsList := Sort(list);
    assert forall x :: x in labelsList <==> x in multiset(labelsList);
    assert forall x :: x in list <==> x in multiset(list);
    forall i, j | 0 <= i < j < |labelsList|
      ensures labelsList[i] != labelsList[j]
    {
      OnceStays(list, labelsList, labelsList[i]);
    }
  }

  datatype Output = Failed | Output(tables: Tables)

  /** The words of the nodes, as printNode computes them. */
  ghost function WordsOf(trie: Trie, le: Encoding): (ws: map<Path, int>)
    reads trie, trie.at.Values
    ensures WordsAre(trie, le, ws)
  {
    map q | q in trie.at :: Word(le, trie.at[q].name, trie.at[q].icann, trie.at[q].childrenIndex)
  }

  /** What the walks leave behind, as values. */
  lemma WalksPrint(g: Generator, le: Encoding, ws: map<Path, int>, nodes: seq<int>, h: nat)
    requires g.Going() && Shallow(g.trie.kids, [], h) && [] in g.trie.kids
    requires g.order == Preorder(g.trie.kids, [], h) && g.processed == Subtree(g.trie.kids, [])
    requires WordsAre(g.trie, le, ws) && nodes == Words(ws, g.order)
    ensures Printed(g.trie.kids, g.KindsNow(), g.SlotsNow(), g.childrenEncoding, g.order, ws, nodes)
  {
    hide Trie.Valid, Done, Preorder, Shallow, Words, Closed;
    TrieClosed(g.trie);
    forall q | q in g.trie.kids && q != []
      ensures q in g.order
    {
      InPreorder(g.trie.kids, [], h, q);
    }
  }

  /** The generated tables hold the rules of the list. */
  lemma TablesHold(g: Generator, le: Encoding, ws: map<Path, int>, t: Tables, h: nat)
    requires g.trie.Valid() && Shallow(g.trie.kids, [], h) && g.order == Preorder(g.trie.kids, [], h)
    requires Printed(g.trie.kids, g.KindsNow(), g.SlotsNow(), t.children, g.order, ws, t.nodes)
    requires WordsAre(g.trie, le, ws) && EncodesAll(t.text, g.trie.labels, le)
    requires t.numTLD == |g.trie.kids[[]]| && |t.nodes| < 0x8000_0000
    ensures Represents(t, Layout(g.trie.kids, FirstOf(g.SlotsNow())), g.trie.rules)
  {
    hide Trie.Valid, Done, Preorder, Shallow, Words, Closed, Word, NodeIs, ChildIs, Encodes, TypeOf, WildcardAt, InTrie,
         Printed, RangeIs, Increasing;
    var trie, kids, slots := g.trie, g.trie.kids, g.SlotsNow();
    var l := Layout(kids, FirstOf(slots));
    TrieClosed(trie);
    TrieIsTrie(trie, l);
    RootRangePrinted(kids, g.KindsNow(), slots, t.children, g.order, ws, t.nodes, h);
    forall p, i | p in kids && 0 <= i < |kids[p]|
      ensures ChildIs(t, l, trie.rules, p, i)
    {
      KidCount(trie, trie.at[p], p);
      KidAt(trie, trie.at[p], p, i);
      var q := p + [kids[p][i]];
      NameAt(trie, q);
      assert q[|q| - 1] == kids[p][i];
      KindIs(trie, q);
      assert ws[q] == Word(le, kids[p][i], trie.at[q].icann, slots[q].code);
      ChildPrinted(t, trie.rules, kids, g.KindsNow(), slots, g.order, ws, le, p, i);
    }
  }

  /** The word at a child's place says what its node records. */
  lemma BitPrinted(g: Generator, le: Encoding, ws: map<Path, int>, t: Tables, p: Path, i: nat)
    requires g.trie.Valid() && g.trie.Marked() && p in g.trie.kids && i < |g.trie.kids[p]|
    requires Printed(g.trie.kids, g.KindsNow(), g.SlotsNow(), t.children, g.order, ws, t.nodes)
    requires WordsAre(g.trie, le, ws) && EncodesAll(t.text, g.trie.labels, le)
    ensures
      var l := Layout(g.trie.kids, FirstOf(g.SlotsNow()));
      l.first.Keys == l.kids.Keys && IcannBitIs(t, l, g.trie.rules, g.trie.marks, p, i)
  {
    hide Trie.Valid, Words, Closed, Word, Encodes, IcannAt, IcannBit, TextLength, TextOffset, ChildrenIndex, ContainsAt,
         Coded, NodeType, WildcardBit, Lo, Hi;
    var trie, slots, q := g.trie, g.SlotsNow(), p + [g.trie.kids[p][i]];
    TrieClosed(trie);
    KidCount(trie, trie.at[p], p);
    KidAt(trie, trie.at[p], p, i);
    NameAt(trie, q);
    assert q[|q| - 1] == trie.kids[p][i];
    assert Done(trie.kids, g.KindsNow(), slots, t.children, p) && Done(trie.kids, g.KindsNow(), slots, t.children, q);
    NodeAtItsIndex(trie.kids, g.KindsNow(), slots, t.children, g.order, ws, t.nodes, q);
    CodedCode(trie.kids, g.KindsNow(), slots, t.children, q);
    WordHolds(t.text, le, trie.kids[p][i], trie.at[q].icann, slots[q].code);
  }

  lemma BitsHold(g: Generator, le: Encoding, ws: map<Path, int>, t: Tables)
    requires g.trie.Valid() && g.trie.Marked()
    requires Printed(g.trie.kids, g.KindsNow(), g.SlotsNow(), t.children, g.order, ws, t.nodes)
    requires WordsAre(g.trie, le, ws) && EncodesAll(t.text, g.trie.labels, le)
    ensures IcannBits(t, Layout(g.trie.kids, FirstOf(g.SlotsNow())), g.trie.rules, g.trie.marks)
  {
    hide Trie.Valid, Done, Words, Closed, WordsAre, EncodesAll, IcannBitIs, IcannAt, Printed;
    TrieClosed(g.trie);
    forall p, i | p in g.trie.kids && 0 <= i < |g.trie.kids[p]|
      ensures IcannBitIs(t, Layout(g.trie.kids, FirstOf(g.SlotsNow())), g.trie.rules, g.trie.marks, p, i)
    {
      BitPrinted(g, le, ws, t, p, i);
    }
  }

  lemma KindIs(trie: Trie, q: Path)
    requires trie.Valid() && q in trie.at && q != []
    ensures trie.at[q].nodeType == TypeOf(trie.rules, q) && (trie.at[q].wildcard <==> WildcardAt(trie.rules, q))
  {
  }

  lemma TrieIsTrie(trie: Trie, l: Layout)
    requires trie.Valid() && l.kids == trie.kids && l.first.Keys == l.kids.Keys
    ensures IsTrieOf(l, trie.rules)
  {
    hide InTrie, TypeOf, WildcardAt, WellShaped;
    TrieClosed(trie);
    forall p | p in l.kids
      ensures Increasing(l.kids[p])
    {
      KidsIncrease(trie, p);
    }
  }

  lemma KidsIncrease(trie: Trie, p: Path)
    requires trie.Valid() && p in trie.kids
    ensures Increasing(trie.kids[p])
  {
    TrieClosed(trie);
    ghost var v := trie.Viewed();
    assert ChildrenAre(v, p);
  }

  // ----- a walk that has stopped -----

  /** The trie when the walk has stopped at a node, and the words of all nodes in the order in which they are
      printed. */
  datatype Stop = Stop(kids: Kids, attrs: map<Path, NodeKind>, slots: Slots, order: seq<Path>, processed: set<Path>,
                       at: Path, ws: map<Path, int>, le: Encoding, all: seq<Path>)

  ghost predicate WordIs(w: int, le: Encoding, name: string, code: nat) {
    exists icann :: w == Word(le, name, icann, code)
  }

  ghost predicate NamesEncoded(text: string, kids: Kids, le: Encoding) {
    forall q :: q in kids && q != [] ==>
      var x := q[|q| - 1];
      x in le && Encodes(text, x, le[x]) && 0 <= le[x] < TEXT_LENGTH * TEXT_OFFSET
  }

  /** The tables that are printed after such a walk. */
  ghost predicate Stopped(t: Tables, rules: seq<Rule>, s: Stop) {
    && KidsOf(s.kids, rules) && s.kids.Keys == s.attrs.Keys == s.slots.Keys == s.ws.Keys
    && (forall q :: q in s.kids ==> Increasing(s.kids[q]))
    && Breaks(s.kids, s.attrs, s.slots, t.children, s.order, s.processed, s.at)
    && s.order <= s.all && t.nodes == Words(s.ws, s.all)
    && NamesEncoded(t.text, s.kids, s.le)
    && forall q :: q in s.kids && q != [] ==> WordIs(s.ws[q], s.le, q[|q| - 1], s.slots[q].code)
  }

  /** The trie of the rules has one shape only. */
  lemma OneShape(l: Layout, kids: Kids, rules: seq<Rule>)
    requires IsTrieOf(l, rules) && KidsOf(kids, rules) && forall q :: q in kids ==> Increasing(kids[q])
    ensures l.kids == kids
  {
    hide InTrie, Increasing;
    forall q | q in kids
      ensures l.kids[q] == kids[q]
    {
      forall x
        ensures x in l.kids[q] <==> x in kids[q]
      {
        assert q + [x] in l.kids <==> q + [x] in kids;
      }
      SameElements(l.kids[q], kids[q]);
    }
  }

  lemma {:induction false} SameElements(a: seq<string>, b: seq<string>)
    requires Increasing(a) && Increasing(b) && forall x :: x in a <==> x in b
    ensures a == b
  {
    hide Less;
    if a == [] {
      FirstIsIn(b);
    } else {
      assert a[0] in b && b[0] in a;
      FirstIsLeast(a, b[0]);
      FirstIsLeast(b, a[0]);
      LessTotal(a[0], b[0]);
      forall x
        ensures x in a[1..] <==> x in b[1..]
      {
        InTail(a, x);
        InTail(b, x);
      }
      SameElements(a[1..], b[1..]);
      assert a == [a[0]] + a[1..] && b == [b[0]] + b[1..];
    }
  }

  lemma FirstIsIn(a: seq<string>)
    ensures a != [] ==> a[0] in a
  {
  }

  lemma FirstIsLeast(a: seq<string>, x: string)
    requires Increasing(a) && x in a
    ensures x == a[0] || Less(a[0], x)
  {
  }

  lemma InTail(a: seq<string>, x: string)
    requires Increasing(a) && a != []
    ensures x in a[1..] <==> x in a && x != a[0]
  {
    hide Less;
    if x in a[1..] {
      var i :| 1 <= i < |a| && a[i] == x;
      LessTotal(a[0], a[i]);
    }
  }

  /** What is known of the node where the walk stopped, and of those before it. */
  lemma BreaksAt(t: Tables, rules: seq<Rule>, s: Stop)
    requires Stopped(t, rules, s)
    ensures s.at in s.kids && s.at != [] && s.kids[s.at] != [] && Parent(s.at) in s.processed
    ensures s.slots.Keys == s.kids.Keys == s.attrs.Keys == s.ws.Keys && s.processed <= s.kids.Keys
    ensures (s.slots[s.at].code == 0 || s.slots[s.at].code == |t.children|) && s.slots[s.at].code < CHILDREN
    ensures PREDEFINED <= t.children && Tracked(s.kids, s.slots, t.children, s.order, s.processed)
    ensures forall q :: q in s.processed ==> Done(s.kids, s.attrs, s.slots, t.children, q)
  {
    hide KidsOf, Done, Increasing, NamesEncoded, WordIs;
  }

  /** A node below the root is one of its parent's children. */
  lemma ChildOfParent(kids: Kids, rules: seq<Rule>, q: Path) returns (i: nat)
    requires KidsOf(kids, rules) && q in kids && q != []
    ensures Parent(q) in kids && i < |kids[Parent(q)]| && q == Parent(q) + [kids[Parent(q)][i]]
  {
    hide Parent, InTrie;
    var b, x := Parent(q), q[|q| - 1];
    LastLabel(q);
    assert b + [x] in kids;
    i :| 0 <= i < |kids[b]| && kids[b][i] == x;
  }

  lemma LastLabel(q: Path)
    requires q != []
    ensures q == Parent(q) + [q[|q| - 1]]
  {
  }

  lemma WordCode(text: string, kids: Kids, le: Encoding, q: Path, w: int, code: nat)
    requires NamesEncoded(text, kids, le) && q in kids && q != [] && WordIs(w, le, q[|q| - 1], code) && code < CHILDREN
    ensures ChildrenIndex(w) == code
  {
    hide Encodes, Word, ChildrenIndex;
    var icann :| w == Word(le, q[|q| - 1], icann, code);
    WordHolds(text, le, q[|q| - 1], icann, code);
  }

  /** A numbered child's word stands where its parent's range says. */
  lemma WordInPlace(t: Tables, rules: seq<Rule>, s: Stop, q: Path) returns (i: nat)
    requires Stopped(t, rules, s) && q in s.kids && q != [] && Parent(q) in s.processed
    requires q in s.slots && s.slots[q].code < CHILDREN
    ensures Parent(q) in s.kids && Parent(q) in s.slots
    ensures i < |s.kids[Parent(q)]| && q == Parent(q) + [s.kids[Parent(q)][i]]
    ensures s.slots[Parent(q)].first + i < |t.nodes|
    ensures ChildrenIndex(t.nodes[s.slots[Parent(q)].first + i]) == s.slots[q].code
  {
    hide Breaks, KidsOf, ChildrenIndex, NamesEncoded, WordIs, Increasing, Inner;
    BreaksAt(t, rules, s);
    i := ChildOfParent(s.kids, rules, q);
    assert InPlace(s.kids, s.slots, s.order, Parent(q), i);
    assert s.all[s.slots[Parent(q)].first + i] == q;
    WordCode(t.text, s.kids, s.le, q, s.ws[q], s.slots[q].code);
  }

  /** In any layout that the tables represent, the children of the processed nodes are where the walk put them. */
  lemma {:induction false} FirstForced(t: Tables, rules: seq<Rule>, s: Stop, l: Layout, q: Path)
    requires Stopped(t, rules, s) && Represents(t, l, rules) && l.kids == s.kids
    requires q in s.processed && q in s.kids && s.kids[q] != []
    ensures q in l.first && q in s.slots && l.first[q] == s.slots[q].first
    decreases |q|
  {
    hide Stopped, Tracked, TypeOf, WildcardAt, IsTrieOf, Lo, Hi, NodeType, WildcardBit, ChildrenIndex, LabelIs;
    BreaksAt(t, rules, s);
    LayoutAt(t, l, rules);
    ProcessedAt(t, rules, s, q);
    if q != [] {
      var i := WordInPlace(t, rules, s, q);
      FirstForced(t, rules, s, l, Parent(q));
      assert ChildIs(t, l, rules, Parent(q), i);
    }
  }

  lemma LayoutAt(t: Tables, l: Layout, rules: seq<Rule>)
    requires Represents(t, l, rules)
    ensures l.first.Keys == l.kids.Keys && [] in l.kids && RangeIs(l, [], 0, t.numTLD)
  {
  }

  lemma ProcessedAt(t: Tables, rules: seq<Rule>, s: Stop, q: Path)
    requires Stopped(t, rules, s) && q in s.processed && q in s.kids && s.kids[q] != []
    ensures q in s.slots && (q == [] ==> s.slots[q].first == 0)
    ensures q != [] ==>
      && Parent(q) in s.processed && Parent(q) in s.kids && s.kids[Parent(q)] != []
      && q in s.attrs && s.slots[q].code < CHILDREN && Coded(s.kids, s.attrs, s.slots, t.children, q)
  {
    hide Stopped, Coded, InPlace, Inner;
    BreaksAt(t, rules, s);
    assert Done(s.kids, s.attrs, s.slots, t.children, q);
    if q != [] {
      CodedIsSmall(s.kids, s.attrs, s.slots, t.children, q);
      var i := ChildOfStop(t, rules, s, q);
    }
  }

  lemma ChildOfStop(t: Tables, rules: seq<Rule>, s: Stop, q: Path) returns (i: nat)
    requires Stopped(t, rules, s) && q in s.kids && q != []
    ensures Parent(q) in s.kids && i < |s.kids[Parent(q)]| && q == Parent(q) + [s.kids[Parent(q)][i]]
  {
    hide Breaks, KidsOf, Increasing, NamesEncoded, WordIs;
    i := ChildOfParent(s.kids, rules, q);
  }

  lemma CodedIsSmall(kids: Kids, attrs: map<Path, NodeKind>, slots: Slots, enc: seq<int>, q: Path)
    requires q in kids && q in slots && q in attrs && Coded(kids, attrs, slots, enc, q)
    ensures slots[q].code < CHILDREN
  {
  }

  /** Tables that are printed after the walk has stopped represent the rules in no layout. */
  lemma NoLayout(t: Tables, rules: seq<Rule>, s: Stop, l: Layout)
    requires Stopped(t, rules, s)
    ensures !Represents(t, l, rules)
  {
    hide Stopped, Tracked, TypeOf, WildcardAt, IsTrieOf, NodeType, WildcardBit, ChildrenIndex, LabelIs, Done;
    if Represents(t, l, rules) {
      ShapeForced(t, rules, s, l);
      BreaksAt(t, rules, s);
      LayoutAt(t, l, rules);
      var i := WordInPlace(t, rules, s, s.at);
      FirstForced(t, rules, s, l, Parent(s.at));
      assert ChildIs(t, l, rules, Parent(s.at), i);
      PredefinedIsEmpty();
    }
  }

  lemma PredefinedIsEmpty()
    ensures Lo(PREDEFINED[0]) == 0 == Hi(PREDEFINED[0])
  {
  }

  lemma ShapeForced(t: Tables, rules: seq<Rule>, s: Stop, l: Layout)
    requires Stopped(t, rules, s) && Represents(t, l, rules)
    ensures l.kids == s.kids
  {
    hide Breaks, ChildIs, RangeIs, NamesEncoded, WordIs;
    OneShape(l, s.kids, rules);
  }

  // ----- main1 and printReal -----

  /** text is what makeText makes of the labels. */
  ghost predicate IsText(text: string, ls: seq<string>, crush: bool) {
    if crush then exists start :: IsCrushed(text, start, ls) else text == Flatten(ls)
  }

  /** The walk has come to its end, or has stopped. */
  lemma WalkedFits(g: Generator, le: Encoding, ws: map<Path, int>, t: Tables, h: nat)
    requires g.Going() && Shallow(g.trie.kids, [], h) && [] in g.trie.kids
    requires g.order == Preorder(g.trie.kids, [], h) && g.processed == Subtree(g.trie.kids, [])
    requires WordsAre(g.trie, le, ws) && t.nodes == Words(ws, g.order) && t.children == g.childrenEncoding
    requires EncodesAll(t.text, g.trie.labels, le) && t.numTLD == |g.trie.kids[[]]|
    ensures Fits(g.trie.rules) && |t.nodes| == |Names(g.trie.rules)|
    ensures |t.children| == |PREDEFINED| + |Zones(g.trie.rules)|
    ensures |t.nodes| < 0x8000_0000 ==>
      Represents(t, Layout(g.trie.kids, FirstOf(g.SlotsNow())), g.trie.rules)
    ensures g.trie.Marked() ==>
      IcannBits(t, Layout(g.trie.kids, FirstOf(g.SlotsNow())), g.trie.rules, g.trie.marks)
  {
    hide Trie.Valid, Progress, Tracked, Unused, Preorder, Shallow, Words, Closed, EncodesAll, Represents, WordsAre,
         Printed, Fits, Names, Zones, Subtree, IcannBits, Trie.Marked;
    KidsOfTrie(g.trie);
    WholeTree(g.trie.kids);
    LaidOutFits(g.trie.kids, g.KindsNow(), g.SlotsNow(), g.childrenEncoding, g.order, g.trie.rules);
    WalksPrint(g, le, ws, t.nodes, h);
    if |t.nodes| < 0x8000_0000 {
      TablesHold(g, le, ws, t, h);
    }
    if g.trie.Marked() {
      BitsHold(g, le, ws, t);
    }
  }

  lemma WholeTree(kids: Kids)
    ensures Subtree(kids, []) == kids.Keys
  {
  }

  lemma KidsOfTrie(trie: Trie)
    requires trie.Valid()
    ensures KidsOf(trie.kids, trie.rules)
  {
    hide InTrie, WellShaped;
    TrieClosed(trie);
  }

  lemma StoppedFits(g: Generator, le: Encoding, ws: map<Path, int>, t: Tables, all: seq<Path>, l: Layout)
    requires g.Broken() && g.order <= all && WordsAre(g.trie, le, ws) && t.nodes == Words(ws, all)
    requires t.children == g.childrenEncoding && EncodesAll(t.text, g.trie.labels, le)
    ensures !Fits(g.trie.rules) && !Represents(t, l, g.trie.rules)
  {
    hide Trie.Valid, Breaks, Words, Closed, EncodesAll, Represents, Fits, Stopped, WordsAre, Increasing, WordIs;
    var kids, slots := g.trie.kids, g.SlotsNow();
    var p :| Breaks(kids, g.KindsNow(), slots, g.childrenEncoding, g.order, g.processed, p);
    KidsOfTrie(g.trie);
    BrokenDoesNotFit(kids, g.KindsNow(), slots, g.childrenEncoding, g.order, g.processed, p, g.trie.rules);
    var s := Stop(kids, g.KindsNow(), slots, g.order, g.processed, p, ws, le, all);
    assert Stopped(t, g.trie.rules, s) by {
      StoppedIs(g, le, ws, t, all, p);
    }
    NoLayout(t, g.trie.rules, s, l);
  }

  lemma StoppedIs(g: Generator, le: Encoding, ws: map<Path, int>, t: Tables, all: seq<Path>, p: Path)
    requires g.trie.Valid() && g.order <= all && WordsAre(g.trie, le, ws) && t.nodes == Words(ws, all)
    requires Breaks(g.trie.kids, g.KindsNow(), g.SlotsNow(), t.children, g.order, g.processed, p)
    requires EncodesAll(t.text, g.trie.labels, le)
    ensures Stopped(t, g.trie.rules,
                    Stop(g.trie.kids, g.KindsNow(), g.SlotsNow(), g.order, g.processed, p, ws, le, all))
  {
    hide Trie.Valid, Breaks, Words, Increasing, Word, KidsOf, Encodes;
    TrieClosed(g.trie);
    KidsOfTrie(g.trie);
    forall q | q in g.trie.kids
      ensures Increasing(g.trie.kids[q])
    {
      KidsIncrease(g.trie, q);
    }
    forall q | q in g.trie.kids && q != []
      ensures WordIs(ws[q], le, q[|q| - 1], g.SlotsNow()[q].code) && q[|q| - 1] in g.trie.labels
    {
      NameAt(g.trie, q);
    }
  }

  /** What the printed tables are worth. */
  ghost predicate Printout(t: Tables, walked: bool, rules: seq<Rule>) {
    && (walked <==> Fits(rules))
    && (walked && |t.nodes| < 0x8000_0000 <==> exists l :: Represents(t, l, rules))
    && (walked ==> |t.nodes| == |Names(rules)| && |t.children| == |PREDEFINED| + |Zones(rules)|)
  }

  /** In some layout the tables represent the rules, and say of every name whether all rules for it are in the ICANN
      section. */
  ghost predicate HoldsMarks(t: Tables, rules: seq<Rule>, marks: seq<bool>) {
    exists l :: Represents(t, l, rules) && IcannBits(t, l, rules, marks)
  }

  lemma MarksHeld(t: Tables, l: Layout, rules: seq<Rule>, marks: seq<bool>)
    requires Represents(t, l, rules) && IcannBits(t, l, rules, marks)
    ensures HoldsMarks(t, rules, marks)
  {
  }

  lemma PrintoutWalked(t: Tables, rules: seq<Rule>, l: Layout)
    requires Fits(rules) && |t.nodes| == |Names(rules)| && |t.children| == |PREDEFINED| + |Zones(rules)|
    requires |t.nodes| < 0x8000_0000 ==> Represents(t, l, rules)
    ensures Printout(t, true, rules)
  {
    hide Fits, Names, Zones;
    SmallTables(t, rules);
    hide Represents;
  }

  /** The walks of printReal: assignIndexes, whose error is dropped, and printNode. */
  method PrintTables(trie: Trie, text: string, le: Encoding, ghost h: nat) returns (t: Tables, walked: bool)
    requires trie.Valid() && trie.Unassigned() && Shallow(trie.kids, [], h) && EncodesAll(text, trie.labels, le)
    modifies trie.at.Values
    ensures t.text == text && Printout(t, walked, trie.rules)
    ensures old(trie.Marked()) && walked && |t.nodes| < 0x8000_0000 ==> HoldsMarks(t, trie.rules, trie.marks)
  {
    hide Trie.Valid, Trie.Unassigned, Shallow, EncodesAll, Preorder, Represents, Closed, Words, WordsAre, Progress,
         Tracked, Unused, Fits, Names, Zones, Generator.Broken, Printout, Trie.Marked, IcannBits, HoldsMarks;
    TrieClosed(trie);
    ghost var rules := trie.rules;
    var g := new Generator(trie);
    walked := g.AssignWalk(trie.root, [], h);
    TrieStill(g);
    ghost var ws, all := WordsOf(trie, le), Preorder(trie.kids, [], h);
    var nodes := PrintWalk(trie, trie.root, le, [], [], h, ws);
    KidCount(trie, trie.root, []);
    t := Tables(nodes, g.childrenEncoding, text, |trie.root.children|);
    if walked {
      WalkedFits(g, le, ws, t, h);
      PrintoutWalked(t, rules, Layout(trie.kids, FirstOf(g.SlotsNow())));
      if trie.Marked() && |t.nodes| < 0x8000_0000 {
        MarksHeld(t, Layout(trie.kids, FirstOf(g.SlotsNow())), rules, trie.marks);
      }
    } else {
      StoppedFits(g, le, ws, t, all, Layout(map[], map[]));
      forall l
        ensures !Represents(t, l, rules)
      {
        StoppedFits(g, le, ws, t, all, l);
      }
      PrintoutStopped(t, rules);
    }
  }

  lemma PrintoutStopped(t: Tables, rules: seq<Rule>)
    requires !Fits(rules) && forall l :: !Represents(t, l, rules)
    ensures Printout(t, false, rules)
  {
    hide Fits, Represents;
  }

  /**
   * main1 and printReal. It fails exactly if the text is empty or does not have every label where it can be encoded.
   * The error of the assignIndexes walk is dropped, so tables are printed even when it stops; walked is that error. The
   * walk stops exactly if the rules do not fit, and then the tables represent the rules in no layout whatsoever.
   */
  method Generate(lines: seq<string>, icann: seq<bool>, crush: bool)
    returns (r: Output, walked: bool, ghost ls: seq<string>, ghost text: string)
    requires |icann| == |lines|
    ensures ListOf(ls, AllLabels(ParseAll(lines))) && IsText(text, ls, crush)
    ensures r.Failed? <==> text == "" || exists x :: x in ls && !Encodable(text, x)
    ensures (forall x :: x in ls ==> |x| < TEXT_LENGTH) && 0 < Sum(ls) < TEXT_OFFSET ==> r.Output?
    ensures r.Output? ==> r.tables.text == text
    ensures r.Output? ==> Printout(r.tables, walked, ParseAll(lines))
    ensures r.Output? && walked && |r.tables.nodes| < 0x8000_0000 ==> HoldsMarks(r.tables, ParseAll(lines), icann)
  {
    hide Trie.Valid, Trie.Unassigned, Trie.Marked, Shallow, EncodesAll, IsText, Sorted, Encodable, AllLabels, Printout,
         HoldsMarks;
    walked := true;
    var trie := BuildTrie(lines, icann);
    TrieShallow(trie);
    var labelsList := ListLabels(trie.labels);
    var txt := MakeText(labelsList, crush);
    ls, text := labelsList, txt;
    TextIs(text, ls, crush);
    if txt == "" {
      return Failed, walked, ls, text;
    }
    var ok, le := EncodeLabels(txt, labelsList);
    if !ok {
      return Failed, walked, ls, text;
    }
    assert (set x | x in labelsList) == trie.labels;
    var t;
    t, walked := PrintTables(trie, txt, le, Longest(trie.rules));
    r := Output(t);
  }

  lemma SmallTables(t: Tables, rules: seq<Rule>)
    ensures (exists l :: Represents(t, l, rules)) ==> |t.nodes| < 0x8000_0000
  {
  }

  lemma TrieStill(g: Generator)
    requires g.Going() || g.Broken()
    ensures g.trie.Valid()
  {
  }

  lemma TextIs(text: string, ls: seq<string>, crush: bool)
    requires forall i :: 0 <= i < |ls| ==> Contains(text, ls[i])
    requires |text| <= Sum(ls)
    requires if crush then exists start :: IsCrushed(text, start, ls) else text == Flatten(ls)
    ensures IsText(text, ls, crush)
    ensures (forall x :: x in ls ==> |x| < TEXT_LENGTH) && 0 < Sum(ls) < TEXT_OFFSET ==>
      text != "" && forall x :: x in ls ==> Encodable(text, x)
  {
    hide IsCrushed, Contains;
    if (forall x :: x in ls ==> |x| < TEXT_LENGTH) && 0 < Sum(ls) < TEXT_OFFSET {
      SmallIsEncodable(text, ls);
      SomeLabel(ls);
      var x :| x in ls && x != "";
      assert Contains(text, x);
      InsideNothing(x);
    }
  }

  lemma {:induction false} SomeLabel(ls: seq<string>)
    requires Sum(ls) > 0
    ensures exists x :: x in ls && x != ""
  {
    if ls[0] == "" {
      SomeLabel(ls[1..]);
      var x :| x in ls[1..] && x != "";
      assert x in ls;
    } else {
      assert ls[0] in ls;
    }
  }
}
