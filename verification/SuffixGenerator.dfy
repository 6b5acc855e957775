/** Packing the trie into tables: assignIndexes, printNode and printReal of publicsuffix/gen.go. */
module SuffixGenerator {
  import opened Strings
  import opened SuffixRules
  import opened SuffixTable
  import opened SuffixTrie

  type Kids = map<Path, seq<string>>

  ghost predicate Closed(kids: Kids) {
    && (forall p, x :: p in kids && x in kids[p] ==> p + [x] in kids)
    && (forall p, x :: p + [x] in kids ==> p in kids && x in kids[p])
  }

  /** No path below p is more than h labels longer. */
  ghost predicate Shallow(kids: Kids, p: Path, h: nat) {
    forall q :: q in kids && IsPrefix(p, q) ==> |q| <= |p| + h
  }

  function Block(kids: Kids, p: Path): (b: seq<Path>)
    requires p in kids
    ensures |b| == |kids[p]|
    ensures forall i :: 0 <= i < |b| ==> b[i] == p + [kids[p][i]]
  {
    seq(|kids[p]|, i requires 0 <= i < |kids[p]| => p + [kids[p][i]])
  }

  /** The order in which walk visits children: all those of p, then what lies below each of them in turn. */
  ghost function Preorder(kids: Kids, p: Path, h: nat): seq<Path>
    requires Closed(kids) && p in kids
    decreases h, 0
  {
    Block(kids, p) + if h == 0 then [] else Rest(kids, p, 0, h - 1)
  }

  ghost function Rest(kids: Kids, p: Path, i: nat, h: nat): seq<Path>
    requires Closed(kids) && p in kids && i <= |kids[p]|
    decreases h, 1 + |kids[p]| - i
  {
    if i == |kids[p]| then []
    else
      assert kids[p][i] in kids[p];
      Preorder(kids, p + [kids[p][i]], h) + Rest(kids, p, i + 1, h)
  }

  /** The paths from p down. */
  ghost function Subtree(kids: Kids, p: Path): set<Path> {
    set q | q in kids && IsPrefix(p, q)
  }

  /** p itself and what lies below its first i children. */
  ghost function Partial(kids: Kids, p: Path, i: nat): set<Path>
    requires p in kids && i <= |kids[p]|
  {
    if i == 0 then {p} else Partial(kids, p, i - 1) + Subtree(kids, p + [kids[p][i - 1]])
  }

  lemma {:induction false} PartialIs(kids: Kids, p: Path, i: nat)
    requires p in kids && i <= |kids[p]|
    ensures forall q :: q in Partial(kids, p, i) <==>
      q == p || (q in kids && p < q && exists j :: 0 <= j < i && kids[p][j] == q[|p|])
  {
    if i > 0 {
      PartialIs(kids, p, i - 1);
      var x := kids[p][i - 1];
      forall q | q in kids
        ensures IsPrefix(p + [x], q) <==> p < q && q[|p|] == x
      {
        if p < q && q[|p|] == x {
          assert q[..|p| + 1] == p + [x];
        }
      }
    }
  }

  /** A path below p goes through one of its children. */
  lemma {:induction false} NextLabel(kids: Kids, p: Path, q: Path)
    requires Closed(kids) && q in kids && p < q
    ensures p in kids && q[|p|] in kids[p]
    decreases |q|
  {
    assert q == q[..|q| - 1] + [q[|q| - 1]];
    if |q| == |p| + 1 {
      assert q[..|q| - 1] == p;
    } else {
      NextLabel(kids, p, q[..|q| - 1]);
    }
  }

  lemma PartialAll(kids: Kids, p: Path)
    requires Closed(kids) && p in kids
    ensures Partial(kids, p, |kids[p]|) == Subtree(kids, p)
  {
    hide Closed;
    PartialIs(kids, p, |kids[p]|);
    forall q | q in kids && IsPrefix(p, q) && q != p
      ensures q[|p|] in kids[p]
    {
      NextLabel(kids, p, q);
    }
  }

  /** What lies below the next child is new. */
  lemma PartialNext(kids: Kids, p: Path, i: nat)
    requires Closed(kids) && p in kids && i < |kids[p]| && Increasing(kids[p])
    ensures Subtree(kids, p + [kids[p][i]]) !! Partial(kids, p, i)
    ensures Subtree(kids, p + [kids[p][i]]) <= Subtree(kids, p)
    ensures p in Subtree(kids, p) && p !in Subtree(kids, p + [kids[p][i]])
  {
    hide Less, Closed;
    PartialIs(kids, p, i);
    var x := kids[p][i];
    forall j | 0 <= j < i
      ensures kids[p][j] != x
    {
      LessTotal(kids[p][j], x);
    }
    forall q | q in Subtree(kids, p + [x])
      ensures p < q && q[|p|] == x
    {
    }
  }

  lemma ShallowBelow(kids: Kids, p: Path, h: nat, i: nat)
    requires Closed(kids) && p in kids && i < |kids[p]| && Shallow(kids, p, h)
    ensures h > 0 && p + [kids[p][i]] in kids && Shallow(kids, p + [kids[p][i]], h - 1)
  {
    assert kids[p][i] in kids[p];
    assert IsPrefix(p, p + [kids[p][i]]);
  }

  // ----- what has been assigned so far -----

  /** A node's place in the nodes table, its first child's, and its entry in the children table. */
  datatype Slot = Slot(node: nat, first: nat, code: nat)
  datatype NodeKind = NodeKind(nodeType: int, wildcard: bool)

  type Slots = map<Path, Slot>

  ghost predicate Done(kids: Kids, attrs: map<Path, NodeKind>, slots: Slots, enc: seq<int>, q: Path) {
    && q in kids && q in slots && q in attrs
    && (forall i :: 0 <= i < |kids[q]| ==>
          q + [kids[q][i]] in slots && slots[q + [kids[q][i]]].node == slots[q].first + i)
    && (q != [] ==> Coded(kids, attrs, slots, enc, q))
  }

  ghost predicate Coded(kids: Kids, attrs: map<Path, NodeKind>, slots: Slots, enc: seq<int>, q: Path)
    requires q in kids && q in slots && q in attrs
  {
    && slots[q].code < |enc|
    && slots[q].code < CHILDREN
    && var u := enc[slots[q].code];
    && NodeType(u) == attrs[q].nodeType
    && (WildcardBit(u) != 0 <==> attrs[q].wildcard)
    && Hi(u) == Lo(u) + |kids[q]|
    && (kids[q] != [] ==> Lo(u) == slots[q].first)
  }

  function Parent(q: Path): Path
    requires q != []
  {
    q[..|q| - 1]
  }

  /** The nodes numbered so far, in order of their numbers, are the children of the nodes processed so far. */
  ghost predicate Numbered(slots: Slots, order: seq<Path>, processed: set<Path>) {
    forall k :: 0 <= k < |order| ==>
      order[k] != [] && Parent(order[k]) in processed && order[k] in slots && slots[order[k]].node == k
  }

  ghost predicate Progress(kids: Kids, attrs: map<Path, NodeKind>, slots: Slots, enc: seq<int>, order: seq<Path>,
                           processed: set<Path>) {
    && Numbered(slots, order, processed)
    && (forall q :: q in processed ==> Done(kids, attrs, slots, enc, q))
    && PREDEFINED <= enc
  }

  /** The entries for nodes without children: node type, plus three if there is a wildcard. */
  const PREDEFINED: seq<int> := [
    0, 0x1000_0000, 0x2000_0000, 0x4000_0000, 0x5000_0000, 0x6000_0000
  ]

  /** Processing one node more keeps everything recorded before. */
  lemma ProgressStep(kids: Kids, attrs: map<Path, NodeKind>, slots: Slots, slots': Slots, enc: seq<int>, enc': seq<int>,
                     order: seq<Path>, processed: set<Path>, p: Path)
    requires Closed(kids) && p in kids && p !in processed && Progress(kids, attrs, slots, enc, order, processed)
    requires slots'.Keys == slots.Keys == kids.Keys == attrs.Keys && enc <= enc'
    requires forall q :: q in slots && q != p ==> slots'[q].first == slots[q].first && slots'[q].code == slots[q].code
    requires forall q :: q in slots && (q == [] || Parent(q) != p) ==> slots'[q].node == slots[q].node
    requires forall i :: 0 <= i < |kids[p]| ==>
      p + [kids[p][i]] in slots' && slots'[p + [kids[p][i]]].node == |order| + i
    requires Done(kids, attrs, slots', enc', p)
    ensures Progress(kids, attrs, slots', enc', order + Block(kids, p), processed + {p})
  {
    hide NodeType, WildcardBit, Hi, Lo;
    var b := Block(kids, p);
    forall k | 0 <= k < |order + b|
      ensures
        var q := (order + b)[k];
        q != [] && Parent(q) in processed + {p} && q in slots' && slots'[q].node == k
    {
      if k < |order| {
        assert order[k] != [] && Parent(order[k]) in processed;
      } else {
        assert Parent(b[k - |order|]) == p;
      }
    }
    forall q | q in processed
      ensures Done(kids, attrs, slots', enc', q)
    {
      assert Done(kids, attrs, slots, enc, q);
      forall i | 0 <= i < |kids[q]|
        ensures slots'[q + [kids[q][i]]].node == slots[q + [kids[q][i]]].node
      {
        assert Parent(q + [kids[q][i]]) == q;
      }
    }
  }

  /** The nodes below the root that have children: those with an entry of their own. */
  ghost function Inner(kids: Kids, s: set<Path>): set<Path> {
    set q | q in s && q in kids && q != [] && kids[q] != []
  }

  /** Each child of a processed node is in its place in the order, and the tables are no larger than they may be. */
  ghost predicate Tracked(kids: Kids, slots: Slots, enc: seq<int>, order: seq<Path>, processed: set<Path>) {
    && slots.Keys == kids.Keys && processed <= kids.Keys
    && (forall q, i :: q in processed && 0 <= i < |kids[q]| ==> InPlace(kids, slots, order, q, i))
    && (forall q :: q in processed && q != [] ==> Parent(q) in processed)
    && ([] in processed && kids[[]] != [] ==> slots[[]].first == 0)
    && |enc| == |PREDEFINED| + |Inner(kids, processed)| <= CHILDREN
    && (Inner(kids, processed) != {} ==> |order| < HI)
  }

  ghost predicate InPlace(kids: Kids, slots: Slots, order: seq<Path>, q: Path, i: nat)
    requires slots.Keys == kids.Keys && q in kids && i < |kids[q]|
  {
    slots[q].first + i < |order| && order[slots[q].first + i] == q + [kids[q][i]]
  }

  /** The nodes that have not been processed do not refer to the children table. */
  ghost predicate Unused(slots: Slots, processed: set<Path>) {
    forall q :: q in slots && q !in processed ==> slots[q].code == 0
  }

  lemma TrackedStart(kids: Kids, slots: Slots)
    requires slots.Keys == kids.Keys
    ensures Tracked(kids, slots, PREDEFINED, [], {})
  {
    assert Inner(kids, {}) == {};
  }

  lemma InnerStep(kids: Kids, s: set<Path>, p: Path)
    requires p in kids && p !in s
    ensures Inner(kids, s + {p}) == Inner(kids, s) + (if p != [] && kids[p] != [] then {p} else {})
    ensures |Inner(kids, s + {p})| == |Inner(kids, s)| + (if p != [] && kids[p] != [] then 1 else 0)
  {
    assert Inner(kids, s + {p}) == Inner(kids, s) + (if p != [] && kids[p] != [] then {p} else {});
  }

  lemma TrackedStep(kids: Kids, slots: Slots, slots': Slots, enc: seq<int>, enc': seq<int>, order: seq<Path>,
                    processed: set<Path>, p: Path)
    requires Tracked(kids, slots, enc, order, processed) && p in kids && p !in processed && slots'.Keys == slots.Keys
    requires forall q :: q in processed ==> slots'[q].first == slots[q].first
    requires kids[p] != [] ==> slots'[p].first == |order|
    requires if p == [] then order == [] else Parent(p) in processed
    requires p != [] && kids[p] != [] ==> |enc'| <= CHILDREN && |order| + |kids[p]| < HI
    requires |enc'| == |enc| + (if p != [] && kids[p] != [] then 1 else 0)
    ensures Tracked(kids, slots', enc', order + Block(kids, p), processed + {p})
  {
    hide InPlace, Inner;
    InnerStep(kids, processed, p);
    if p == [] {
      NothingInner(kids, slots, order, processed);
    }
    forall q, i | q in processed + {p} && 0 <= i < |kids[q]|
      ensures InPlace(kids, slots', order + Block(kids, p), q, i)
    {
      if q != p {
        assert InPlace(kids, slots, order, q, i);
      }
      StaysInPlace(kids, slots, slots', order, p, q, i);
    }
  }

  lemma StaysInPlace(kids: Kids, slots: Slots, slots': Slots, order: seq<Path>, p: Path, q: Path, i: nat)
    requires slots'.Keys == slots.Keys == kids.Keys && p in kids && q in kids && i < |kids[q]|
    requires if q == p then slots'[p].first == |order|
             else slots'[q].first == slots[q].first && InPlace(kids, slots, order, q, i)
    ensures InPlace(kids, slots', order + Block(kids, p), q, i)
  {
  }

  lemma NothingInner(kids: Kids, slots: Slots, order: seq<Path>, processed: set<Path>)
    requires slots.Keys == kids.Keys && processed <= kids.Keys && order == []
    requires forall q, i :: q in processed && 0 <= i < |kids[q]| ==> InPlace(kids, slots, order, q, i)
    ensures Inner(kids, processed) == {}
  {
    forall q | q in processed
      ensures q !in Inner(kids, processed)
    {
      if kids[q] != [] {
        assert InPlace(kids, slots, order, q, 0);
      }
    }
  }

  /** The walk has stopped at p: its entry does not fit, and p is left with one that is not its own. */
  ghost predicate Breaks(kids: Kids, attrs: map<Path, NodeKind>, slots: Slots, enc: seq<int>, order: seq<Path>,
                         processed: set<Path>, p: Path) {
    && Progress(kids, attrs, slots, enc, order, processed) && Tracked(kids, slots, enc, order, processed)
    && p in kids && p != [] && kids[p] != [] && p !in processed && Parent(p) in processed
    && (slots[p].code == 0 || slots[p].code == |enc|) && slots[p].code < CHILDREN
    && (|enc| >= CHILDREN || |order| + |kids[p]| >= HI)
    && forall i :: 0 <= i < |kids[p]| ==> p + [kids[p][i]] in slots && slots[p + [kids[p][i]]].node == |order| + i
  }

  /** What is recorded for the processed nodes stays when the walk stops at p. */
  lemma ProgressKept(kids: Kids, attrs: map<Path, NodeKind>, slots: Slots, slots': Slots, enc: seq<int>,
                     order: seq<Path>, processed: set<Path>, p: Path)
    requires p !in processed && Progress(kids, attrs, slots, enc, order, processed)
    requires Tracked(kids, slots, enc, order, processed) && slots'.Keys == slots.Keys == kids.Keys == attrs.Keys
    requires forall q :: q in slots && q != p ==> slots'[q].first == slots[q].first && slots'[q].code == slots[q].code
    requires forall q :: q in slots && (q == [] || Parent(q) != p) ==> slots'[q].node == slots[q].node
    ensures Progress(kids, attrs, slots', enc, order, processed) && Tracked(kids, slots', enc, order, processed)
  {
    hide NodeType, WildcardBit, Hi, Lo;
    hide Parent, Inner, Coded;
    forall k | 0 <= k < |order|
      ensures slots'[order[k]].node == k
    {
      assert order[k] != [] && Parent(order[k]) in processed;
    }
    forall q | q in processed
      ensures Done(kids, attrs, slots', enc, q)
    {
      DoneKept(kids, attrs, slots, slots', enc, p, q);
    }
    forall q, i | q in processed && 0 <= i < |kids[q]|
      ensures InPlace(kids, slots', order, q, i)
    {
      assert InPlace(kids, slots, order, q, i);
    }
  }

  lemma DoneKept(kids: Kids, attrs: map<Path, NodeKind>, slots: Slots, slots': Slots, enc: seq<int>, p: Path, q: Path)
    requires q != p && Done(kids, attrs, slots, enc, q) && slots'.Keys == slots.Keys == kids.Keys == attrs.Keys
    requires forall q :: q in slots && q != p ==> slots'[q].first == slots[q].first && slots'[q].code == slots[q].code
    requires forall q :: q in slots && (q == [] || Parent(q) != p) ==> slots'[q].node == slots[q].node
    ensures Done(kids, attrs, slots', enc, q)
  {
    hide NodeType, WildcardBit, Hi, Lo;
    forall i | 0 <= i < |kids[q]|
      ensures slots'[q + [kids[q][i]]].node == slots[q + [kids[q][i]]].node
    {
      assert Parent(q + [kids[q][i]]) == q;
    }
  }

  /** A node's entry when it has no children of its own: one of the six predefined ones. */
  lemma LeafCode(nodeType: int, wildcard: bool)
    requires 0 <= nodeType < 3
    ensures
      var code := nodeType + if wildcard then 3 else 0;
      && 0 <= code < 6
      && NodeType(PREDEFINED[code]) == nodeType && (WildcardBit(PREDEFINED[code]) != 0 <==> wildcard)
      && Lo(PREDEFINED[code]) == 0 == Hi(PREDEFINED[code])
  {
  }

  lemma ProgressStart(kids: Kids, attrs: map<Path, NodeKind>, slots: Slots)
    ensures Progress(kids, attrs, slots, PREDEFINED, [], {})
  {
  }

  /** The children of a node are different nodes, each one label below it. */
  lemma ChildrenDiffer(v: View, root: Node, labels: set<string>, p: Path)
    requires WellShaped(v, root, labels) && p in v.at
    ensures p in v.kids && p in v.children && |v.children[p]| == |v.kids[p]|
    ensures forall i :: 0 <= i < |v.kids[p]| ==>
      p + [v.kids[p][i]] in v.at && v.children[p][i] == v.at[p + [v.kids[p][i]]]
    ensures forall i, j :: 0 <= i < j < |v.kids[p]| ==> v.children[p][i] != v.children[p][j]
    ensures forall q :: q in v.at && (q == [] || Parent(q) != p) ==> v.at[q] !in v.children[p]
  {
    hide Less;
    ShapeAt(v, root, labels, p);
    var ks, cs := v.kids[p], v.children[p];
    forall i, j | 0 <= i < j < |ks|
      ensures cs[i] != cs[j]
    {
      LessTotal(ks[i], ks[j]);
      assert (p + [ks[i]])[|p|] != (p + [ks[j]])[|p|];
    }
    forall q, i | q in v.at && (q == [] || Parent(q) != p) && 0 <= i < |ks|
      ensures v.at[q] != cs[i]
    {
      assert Parent(p + [ks[i]]) == p;
    }
  }

  class Generator {
    const trie: Trie
    var nextNodesIndex: nat
    var childrenEncoding: seq<int>
    var firstCall: bool
    ghost var order: seq<Path>
    ghost var processed: set<Path>

    constructor (trie: Trie)
      requires trie.Valid() && trie.Unassigned()
      ensures this.trie == trie && firstCall && order == [] && processed == {}
      ensures Going()
    {
      this.trie := trie;
      nextNodesIndex, childrenEncoding, firstCall := 0, PREDEFINED, true;
      order, processed := [], {};
      new;
      hide *;
      Starts();
    }

    lemma Starts()
      requires trie.Valid() && nextNodesIndex == 0 && childrenEncoding == PREDEFINED && order == [] && processed == {}
      requires trie.Unassigned()
      ensures Going()
    {
      hide Trie.Valid, Closed, Progress, Tracked;
      TrieFacts();
      ProgressStart(trie.kids, KindsNow(), SlotsNow());
      TrackedStart(trie.kids, SlotsNow());
    }

    ghost function SlotsNow(): Slots
      reads trie`at, trie.at.Values`nodesIndex, trie.at.Values`firstChild, trie.at.Values`childrenIndex
    {
      map p | p in trie.at :: Slot(trie.at[p].nodesIndex, trie.at[p].firstChild, trie.at[p].childrenIndex)
    }

    ghost function KindsNow(): map<Path, NodeKind>
      reads trie`at, trie.at.Values`nodeType, trie.at.Values`wildcard
    {
      map p | p in trie.at :: NodeKind(trie.at[p].nodeType, trie.at[p].wildcard)
    }

    /** What holds between the visits of the walk. */
    ghost predicate Going()
      reads this, trie, trie.at.Values
    {
      && trie.Valid()
      && nextNodesIndex == |order|
      && Closed(trie.kids)
      && Progress(trie.kids, KindsNow(), SlotsNow(), childrenEncoding, order, processed)
      && Tracked(trie.kids, SlotsNow(), childrenEncoding, order, processed)
      && Unused(SlotsNow(), processed)
    }

    /** The walk has stopped because a field of the tables would overflow. */
    ghost predicate Broken()
      reads this, trie, trie.at.Values
    {
      && trie.Valid() && Closed(trie.kids)
      && exists p :: Breaks(trie.kids, KindsNow(), SlotsNow(), childrenEncoding, order, processed, p)
    }

    lemma GoingOn()
      requires Going()
      ensures trie.Valid() && nextNodesIndex == |order|
    {
    }

    lemma TrieFacts()
      requires trie.Valid()
      ensures trie.at.Keys == trie.kids.Keys && Closed(trie.kids)
      ensures [] in trie.at && trie.at[[]] == trie.root
    {
      ghost var v := trie.Viewed();
      forall p, x | p in v.at && x in v.kids[p]
        ensures p + [x] in v.at
      {
        assert ChildrenAre(v, p);
      }
    }

    /** The first loop of assignIndexes, over nodes that are all different. */
    method NumberAll(cs: seq<Node>)
      requires forall i, j :: 0 <= i < j < |cs| ==> cs[i] != cs[j]
      modifies cs`nodesIndex, `nextNodesIndex
      ensures nextNodesIndex == old(nextNodesIndex) + |cs|
      ensures forall i :: 0 <= i < |cs| ==> cs[i].nodesIndex == old(nextNodesIndex) + i
    {
      var i := 0;
      while i < |cs|
        invariant 0 <= i <= |cs| && nextNodesIndex == old(nextNodesIndex) + i
        invariant forall j :: 0 <= j < i ==> cs[j].nodesIndex == old(nextNodesIndex) + j
      {
        cs[i].nodesIndex := nextNodesIndex;
        nextNodesIndex := nextNodesIndex + 1;
        i := i + 1;
      }
    }

    /** Consecutive numbers for the children, the first of them recorded in their parent. */
    method NumberChildren(n: Node, ghost p: Path)
      requires trie.Valid() && p in trie.at && n == trie.at[p]
      modifies n`firstChild, n.children`nodesIndex, `nextNodesIndex
      ensures trie.Valid() && p in trie.kids && |n.children| == |trie.kids[p]|
      ensures nextNodesIndex == old(nextNodesIndex) + |n.children| && n.firstChild == old(nextNodesIndex)
      ensures forall i :: 0 <= i < |trie.kids[p]| ==>
        && p + [trie.kids[p][i]] in trie.at
        && trie.at[p + [trie.kids[p][i]]].nodesIndex == old(nextNodesIndex) + i
      ensures forall q :: q in trie.at && (q == [] || Parent(q) != p) ==>
        trie.at[q].nodesIndex == old(trie.at[q].nodesIndex)
    {
      hide Trie.Valid, Parent;
      ChildrenApart(n, p);
      n.firstChild := nextNodesIndex;
      NumberAll(n.children);
    }

    /** What is known of the children of one node: they are its paths' nodes, all different, and no other path's. */
    lemma ChildrenApart(n: Node, p: Path)
      requires trie.Valid() && p in trie.at && n == trie.at[p]
      ensures p in trie.kids && |n.children| == |trie.kids[p]|
      ensures forall i :: 0 <= i < |trie.kids[p]| ==>
        p + [trie.kids[p][i]] in trie.at && n.children[i] == trie.at[p + [trie.kids[p][i]]]
      ensures forall i, j :: 0 <= i < j < |n.children| ==> n.children[i] != n.children[j]
      ensures forall q :: q in trie.at && (q == [] || Parent(q) != p) ==> trie.at[q] !in n.children
    {
      hide WellShaped, Less, Trie.Valid, Parent;
      Shaped();
      ChildrenDiffer(trie.Viewed(), trie.root, trie.labels, p);
    }

    /** The slots after p has been processed, against those before. */
    ghost predicate Moved(slots: Slots, p: Path)
      requires p in trie.kids
      reads `order, trie, trie.at.Values
    {
      var now := SlotsNow();
      && now.Keys == slots.Keys == trie.kids.Keys
      && (forall q :: q in slots && q != p ==> now[q].first == slots[q].first && now[q].code == slots[q].code)
      && (forall q :: q in slots && (q == [] || Parent(q) != p) ==> now[q].node == slots[q].node)
      && (forall i :: 0 <= i < |trie.kids[p]| ==>
            p + [trie.kids[p][i]] in now && now[p + [trie.kids[p][i]]].node == |order| + i)
    }

    /** p joins the processed nodes. */
    ghost method Record(p: Path, slots: Slots, enc: seq<int>)
      requires trie.Valid() && p in trie.kids && p !in processed
      requires Progress(trie.kids, KindsNow(), slots, enc, order, processed)
      requires Tracked(trie.kids, slots, enc, order, processed) && Unused(slots, processed)
      requires Moved(slots, p) && enc <= childrenEncoding && nextNodesIndex == |order| + |trie.kids[p]|
      requires Done(trie.kids, KindsNow(), SlotsNow(), childrenEncoding, p)
      requires if p == [] then order == [] else Parent(p) in processed
      requires p != [] && trie.kids[p] != [] ==>
        |childrenEncoding| <= CHILDREN && |order| + |trie.kids[p]| < HI
      requires |childrenEncoding| == |enc| + (if p != [] && trie.kids[p] != [] then 1 else 0)
      modifies `order, `processed
      ensures Going() && processed == old(processed) + {p} && order == old(order) + Block(trie.kids, p)
    {
      hide Trie.Valid, Closed, Progress, Tracked, Unused, Done, Moved, Block, KindsNow, SlotsNow;
      ProgressRecorded(p, slots, enc);
      TrackedRecorded(p, slots, enc);
      order, processed := order + Block(trie.kids, p), processed + {p};
    }

    lemma ProgressRecorded(p: Path, slots: Slots, enc: seq<int>)
      requires trie.Valid() && p in trie.kids && p !in processed
      requires Progress(trie.kids, KindsNow(), slots, enc, order, processed)
      requires Moved(slots, p) && enc <= childrenEncoding
      requires Done(trie.kids, KindsNow(), SlotsNow(), childrenEncoding, p)
      ensures Closed(trie.kids)
      ensures Progress(trie.kids, KindsNow(), SlotsNow(), childrenEncoding,
                       order + Block(trie.kids, p), processed + {p})
    {
      hide Trie.Valid, Closed, Progress, Done, Block;
      TrieFacts();
      ProgressStep(trie.kids, KindsNow(), slots, SlotsNow(), enc, childrenEncoding, order, processed, p);
    }

    lemma TrackedRecorded(p: Path, slots: Slots, enc: seq<int>)
      requires p in trie.kids && p !in processed && Tracked(trie.kids, slots, enc, order, processed)
      requires Unused(slots, processed) && Moved(slots, p)
      requires Done(trie.kids, KindsNow(), SlotsNow(), childrenEncoding, p)
      requires if p == [] then order == [] else Parent(p) in processed
      requires p != [] && trie.kids[p] != [] ==> |childrenEncoding| <= CHILDREN && |order| + |trie.kids[p]| < HI
      requires |childrenEncoding| == |enc| + (if p != [] && trie.kids[p] != [] then 1 else 0)
      ensures Tracked(trie.kids, SlotsNow(), childrenEncoding, order + Block(trie.kids, p), processed + {p})
      ensures Unused(SlotsNow(), processed + {p})
    {
      hide Tracked, Done, Block;
      TrackedKeys(trie.kids, slots, enc, order, processed);
      FirstIsNext(trie.kids, KindsNow(), SlotsNow(), childrenEncoding, p, |order|);
      TrackedStep(trie.kids, slots, SlotsNow(), enc, childrenEncoding, order, processed, p);
    }

    lemma FirstIsNext(kids: Kids, attrs: map<Path, NodeKind>, slots: Slots, enc: seq<int>, p: Path, n: nat)
      requires Done(kids, attrs, slots, enc, p)
      requires forall i :: 0 <= i < |kids[p]| ==> slots[p + [kids[p][i]]].node == n + i
      ensures kids[p] != [] ==> slots[p].first == n
    {
      hide Coded;
      if kids[p] != [] {
        assert slots[p + [kids[p][0]]].node == slots[p].first + 0;
      }
    }

    lemma TrackedKeys(kids: Kids, slots: Slots, enc: seq<int>, order: seq<Path>, processed: set<Path>)
      requires Tracked(kids, slots, enc, order, processed)
      ensures slots.Keys == kids.Keys && processed <= kids.Keys && |enc| <= CHILDREN
    {
    }

    /** The entry for a node with children: its range of children, type and wildcard in one word. */
    method EncodeEntry(n: Node) returns (ok: bool, enc: int)
      requires 0 <= n.nodeType < 3
      ensures ok <==> n.firstChild + |n.children| < HI
      ensures ok ==>
        && Lo(enc) == n.firstChild && Hi(enc) == n.firstChild + |n.children|
        && NodeType(enc) == n.nodeType && (WildcardBit(enc) != 0 <==> n.wildcard)
    {
      var lo := n.firstChild;
      var hi := lo + |n.children|;
      if lo >= LO || hi >= HI {
        return false, 0;
      }
      var wildcard := if n.wildcard then 1 else 0;
      ChildrenWord(wildcard, n.nodeType, hi, lo);
      ok, enc := true, Field(Field(Field(wildcard, NODE_TYPE, n.nodeType), HI, hi), LO, lo);
    }

    lemma Shaped()
      requires trie.Valid()
      ensures trie.Shape()
    {
    }

    lemma KindAt(n: Node, p: Path)
      requires trie.Valid() && p in trie.at && n == trie.at[p]
      ensures p in trie.kids && |n.children| == |trie.kids[p]|
      ensures 0 <= n.nodeType < 3
      ensures forall q :: q in trie.at && q != p ==> trie.at[q] != n
    {
      hide TypeOf, WildcardAt, InTrie;
      ghost var v := trie.Viewed();
      assert ChildrenAre(v, p);
      TypeMeaning(trie.rules, p);
    }

    /** What the walk must show at p, said of the nodes themselves. */
    lemma DoneHere(n: Node, p: Path)
      requires trie.at.Keys == trie.kids.Keys && p in trie.at && trie.at[p] == n
      requires forall i :: 0 <= i < |trie.kids[p]| ==>
        && p + [trie.kids[p][i]] in trie.at
        && trie.at[p + [trie.kids[p][i]]].nodesIndex == n.firstChild + i
      requires p != [] ==>
        && n.childrenIndex < |childrenEncoding| && n.childrenIndex < CHILDREN
        && var u := childrenEncoding[n.childrenIndex];
        && NodeType(u) == n.nodeType && (WildcardBit(u) != 0 <==> n.wildcard)
        && Hi(u) == Lo(u) + |trie.kids[p]| && (trie.kids[p] != [] ==> Lo(u) == n.firstChild)
      ensures Done(trie.kids, KindsNow(), SlotsNow(), childrenEncoding, p)
    {
      hide NodeType, WildcardBit, Lo, Hi;
    }

    lemma SlotsAre()
      ensures SlotsNow().Keys == trie.at.Keys
      ensures forall q :: q in trie.at ==>
        SlotsNow()[q] == Slot(trie.at[q].nodesIndex, trie.at[q].firstChild, trie.at[q].childrenIndex)
    {
    }

    lemma MovedHere(n: Node, p: Path, slots: Slots)
      requires trie.at.Keys == trie.kids.Keys == slots.Keys && p in trie.at
      requires forall q :: q in trie.at && q != p ==>
        trie.at[q].firstChild == slots[q].first && trie.at[q].childrenIndex == slots[q].code
      requires forall q :: q in trie.at && (q == [] || Parent(q) != p) ==> trie.at[q].nodesIndex == slots[q].node
      requires forall i :: 0 <= i < |trie.kids[p]| ==>
        && p + [trie.kids[p][i]] in trie.at
        && trie.at[p + [trie.kids[p][i]]].nodesIndex == |order| + i
      ensures Moved(slots, p)
    {
    }

    /** A node without children. */
    method AssignLeaf(n: Node, ghost p: Path)
      requires Going() && p in trie.at && n == trie.at[p] && n.children == []
      modifies n`childrenIndex
      ensures trie.Valid() && p in trie.kids && trie.kids[p] == [] && Moved(old(SlotsNow()), p)
      ensures Done(trie.kids, KindsNow(), SlotsNow(), childrenEncoding, p)
    {
      hide Tracked, Unused;
      hide Trie.Valid, Closed, NodeType, WildcardBit, Lo, Hi, Trie.Shape, Done, Moved, KindsNow;
      TrieFacts();
      KindAt(n, p);
      ghost var slots := SlotsNow();
      n.childrenIndex := n.nodeType;
      if n.wildcard {
        n.childrenIndex := n.childrenIndex + 3;
      }
      LeafCode(n.nodeType, n.wildcard);
      assert childrenEncoding[..6] == PREDEFINED;
      assert childrenEncoding[n.childrenIndex] == PREDEFINED[n.childrenIndex];
      DoneHere(n, p);
      MovedHere(n, p, slots);
    }

    /** A node with children: they are numbered, and unless it is the root it gets an entry of its own, if it fits. */
    method AssignBranch(n: Node, ghost p: Path) returns (ok: bool)
      requires Going() && p in trie.at && n == trie.at[p] && n.children != [] && n.childrenIndex == 0
      requires firstCall <==> p == []
      modifies n.children`nodesIndex, n`firstChild, n`childrenIndex
      modifies `nextNodesIndex, `childrenEncoding, `firstCall
      ensures trie.Valid() && p in trie.kids && trie.kids[p] != [] && !firstCall
      ensures nextNodesIndex == |order| + |trie.kids[p]| && Moved(old(SlotsNow()), p)
      ensures ok <==> p == [] || (|old(childrenEncoding)| < CHILDREN && |order| + |trie.kids[p]| < HI)
      ensures if ok && p != [] then |childrenEncoding| == |old(childrenEncoding)| + 1
                               else childrenEncoding == old(childrenEncoding)
      ensures ok ==> old(childrenEncoding) <= childrenEncoding
      ensures ok ==> Done(trie.kids, KindsNow(), SlotsNow(), childrenEncoding, p)
      ensures !ok ==>
        && (n.childrenIndex == 0 || n.childrenIndex == |childrenEncoding|) && n.childrenIndex < CHILDREN
    {
      hide Trie.Valid, Going, Trie.Shape, Done, Moved, KindsNow, SlotsNow, Numbered;
      GoingOn();
      ghost var slots := SlotsNow();
      NumberBranch(n, p);
      ok := EnterNumbered(n, p, slots);
    }

    /** The children of n have their numbers, and everything else is as in these slots. */
    ghost predicate Numbered(n: Node, p: Path, slots: Slots)
      reads this, trie, trie.at.Values, n
    {
      && trie.at.Keys == trie.kids.Keys == slots.Keys && p in trie.at && trie.at[p] == n
      && |n.children| == |trie.kids[p]| && 0 <= n.nodeType < 3 && n.firstChild == |order|
      && (forall q :: q in trie.at && q != p ==>
        trie.at[q] != n && trie.at[q].firstChild == slots[q].first && trie.at[q].childrenIndex == slots[q].code)
      && (forall q :: q in trie.at && (q == [] || Parent(q) != p) ==> trie.at[q].nodesIndex == slots[q].node)
      && forall i :: 0 <= i < |trie.kids[p]| ==>
        && p + [trie.kids[p][i]] in trie.at
        && trie.at[p + [trie.kids[p][i]]].nodesIndex == n.firstChild + i
    }

    method NumberBranch(n: Node, ghost p: Path)
      requires trie.Valid() && p in trie.at && n == trie.at[p] && nextNodesIndex == |order|
      modifies n`firstChild, n.children`nodesIndex, `nextNodesIndex
      ensures trie.Valid() && Numbered(n, p, old(SlotsNow())) && p in trie.kids && |n.children| == |trie.kids[p]|
      ensures nextNodesIndex == |order| + |n.children|
    {
      hide Trie.Valid, Trie.Shape, Closed, Parent, SlotsNow;
      TrieFacts();
      KindAt(n, p);
      SlotsAre();
      NumberChildren(n, p);
    }

    /** The entry of such a node: then it is laid out, if the entry fits. */
    method EnterNumbered(n: Node, ghost p: Path, ghost slots: Slots) returns (ok: bool)
      requires trie.Valid() && Numbered(n, p, slots) && (firstCall <==> p == [])
      modifies n`childrenIndex, `childrenEncoding, `firstCall
      ensures trie.Valid() && !firstCall && Moved(slots, p)
      ensures ok <==> p == [] || (|old(childrenEncoding)| < CHILDREN && |order| + |trie.kids[p]| < HI)
      ensures if ok && p != [] then |childrenEncoding| == |old(childrenEncoding)| + 1
                               else childrenEncoding == old(childrenEncoding)
      ensures ok ==> old(childrenEncoding) <= childrenEncoding
      ensures ok ==> Done(trie.kids, KindsNow(), SlotsNow(), childrenEncoding, p)
      ensures !ok ==>
        n.childrenIndex == (if |childrenEncoding| < CHILDREN then |childrenEncoding| else old(n.childrenIndex))
    {
      hide Trie.Valid, Trie.Shape, NodeType, WildcardBit, Lo, Hi, Done, Moved, KindsNow, SlotsNow, Parent;
      ok := EnterBranch(n);
      MovedHere(n, p, slots);
      if ok {
        DoneHere(n, p);
      }
    }

    /** The entry of a node whose children have been numbered; the root has none. */
    method EnterBranch(n: Node) returns (ok: bool)
      requires trie.Valid() && 0 <= n.nodeType < 3
      modifies n`childrenIndex, `childrenEncoding, `firstCall
      ensures trie.Valid() && !firstCall
      ensures ok <==> old(firstCall) || (|old(childrenEncoding)| < CHILDREN && n.firstChild + |n.children| < HI)
      ensures old(firstCall) ==> childrenEncoding == old(childrenEncoding) && n.childrenIndex == old(n.childrenIndex)
      ensures ok && !old(firstCall) ==>
        && |childrenEncoding| == |old(childrenEncoding)| + 1 && old(childrenEncoding) <= childrenEncoding
        && n.childrenIndex < |childrenEncoding| && n.childrenIndex < CHILDREN
        && var u := childrenEncoding[n.childrenIndex];
        && NodeType(u) == n.nodeType && (WildcardBit(u) != 0 <==> n.wildcard)
        && Lo(u) == n.firstChild && Hi(u) == n.firstChild + |n.children|
      ensures !ok ==>
        && childrenEncoding == old(childrenEncoding)
        && n.childrenIndex == (if |childrenEncoding| < CHILDREN then |childrenEncoding| else old(n.childrenIndex))
    {
      hide Trie.Valid, NodeType, WildcardBit, Lo, Hi;
      ok := true;
      if firstCall {
        firstCall := false;
      } else {
        ok := AddEntry(n);
      }
    }

    /** The second half of assignIndexes: a new entry in the children table, if it and its fields fit. */
    method AddEntry(n: Node) returns (ok: bool)
      requires trie.Valid() && 0 <= n.nodeType < 3
      modifies n`childrenIndex, `childrenEncoding
      ensures trie.Valid()
      ensures ok <==> |old(childrenEncoding)| < CHILDREN && n.firstChild + |n.children| < HI
      ensures ok ==> |childrenEncoding| == |old(childrenEncoding)| + 1 && old(childrenEncoding) <= childrenEncoding
      ensures ok ==>
        && n.childrenIndex < |childrenEncoding| && n.childrenIndex < CHILDREN
        && var u := childrenEncoding[n.childrenIndex];
        && NodeType(u) == n.nodeType && (WildcardBit(u) != 0 <==> n.wildcard)
        && Lo(u) == n.firstChild && Hi(u) == n.firstChild + |n.children|
      ensures !ok ==>
        && childrenEncoding == old(childrenEncoding)
        && n.childrenIndex == (if |childrenEncoding| < CHILDREN then |childrenEncoding| else old(n.childrenIndex))
    {
      hide Trie.Valid, NodeType, WildcardBit, Lo, Hi;
      if |childrenEncoding| >= CHILDREN {
        return false;
      }
      n.childrenIndex := |childrenEncoding|;
      var enc;
      ok, enc := EncodeEntry(n);
      if !ok {
        return;
      }
      childrenEncoding := childrenEncoding + [enc];
    }

    /** assignIndexes: number the children of n and encode its entry; false when a field would overflow. */
    method AssignIndexes(n: Node, ghost p: Path) returns (ok: bool)
      requires Going() && p in trie.at && n == trie.at[p] && p !in processed
      requires firstCall <==> p == []
      requires if p == [] then order == [] else Parent(p) in processed
      modifies n.children`nodesIndex, n`firstChild, n`childrenIndex
      modifies `nextNodesIndex, `childrenEncoding, `firstCall, `order, `processed
      ensures p in trie.kids && (trie.kids[p] != [] || !old(firstCall) ==> !firstCall)
      ensures ok ==> Going() && processed == old(processed) + {p} && order == old(order) + Block(trie.kids, p)
      ensures !ok ==> Broken() && order == old(order)
    {
      hide Trie.Valid, Closed, Progress, Tracked, Unused, Done, Block, Moved, KindsNow, SlotsNow, Parent, Broken;
      TrieFacts();
      KindAt(n, p);
      TrackedKeys(trie.kids, SlotsNow(), childrenEncoding, order, processed);
      UnusedAt(n, p);
      ghost var slots, enc0 := SlotsNow(), childrenEncoding;
      ok := true;
      if |n.children| != 0 {
        ok := AssignBranch(n, p);
        if !ok {
          Stop(n, p, slots);
          return;
        }
      } else {
        AssignLeaf(n, p);
      }
      Record(p, slots, enc0);
    }

    lemma UnusedAt(n: Node, p: Path)
      requires Unused(SlotsNow(), processed) && p in trie.at && n == trie.at[p] && p !in processed
      ensures n.childrenIndex == 0
    {
      SlotsAre();
    }

    /** The walk stops at p. */
    lemma Stop(n: Node, p: Path, slots: Slots)
      requires trie.Valid() && p in trie.at && n == trie.at[p] && p in trie.kids && p !in processed
      requires Progress(trie.kids, KindsNow(), slots, childrenEncoding, order, processed)
      requires Tracked(trie.kids, slots, childrenEncoding, order, processed) && Moved(slots, p)
      requires p != [] && trie.kids[p] != [] && Parent(p) in processed
      requires n.childrenIndex == 0 || n.childrenIndex == |childrenEncoding|
      requires n.childrenIndex < CHILDREN
      requires |childrenEncoding| >= CHILDREN || |order| + |trie.kids[p]| >= HI
      ensures Broken()
    {
      hide Trie.Valid, Closed, Progress, Tracked;
      TrieFacts();
      ProgressKept(trie.kids, KindsNow(), slots, SlotsNow(), childrenEncoding, order, processed, p);
      assert Breaks(trie.kids, KindsNow(), SlotsNow(), childrenEncoding, order, processed, p);
    }

    /** The kth child of n is the node one label below p. */
    lemma ChildAt(n: Node, p: Path, k: nat)
      requires trie.Valid() && p in trie.at && n == trie.at[p] && p in trie.kids && k < |trie.kids[p]|
      ensures |n.children| == |trie.kids[p]|
      ensures p + [trie.kids[p][k]] in trie.at && n.children[k] == trie.at[p + [trie.kids[p][k]]]
    {
      ghost var v := trie.Viewed();
      assert ChildrenAre(v, p);
    }

    lemma Increases(p: Path)
      requires trie.Valid() && p in trie.kids
      ensures Increasing(trie.kids[p])
    {
      TrieFacts();
      ghost var v := trie.Viewed();
      assert ChildrenAre(v, p);
    }

    lemma ChildrenInside(n: Node, p: Path)
      requires trie.Valid() && p in trie.at && n == trie.at[p]
      ensures forall i :: 0 <= i < |n.children| ==> n.children[i] in trie.at.Values
    {
      hide WellShaped;
      ChildrenDiffer(trie.Viewed(), trie.root, trie.labels, p);
    }

    /** walk with assignIndexes. */
    method AssignWalk(n: Node, ghost p: Path, ghost h: nat) returns (ok: bool)
      requires Going() && p in trie.at && n == trie.at[p] && Shallow(trie.kids, p, h)
      requires Subtree(trie.kids, p) !! processed && (firstCall <==> p == [])
      requires if p == [] then order == [] else Parent(p) in processed
      modifies trie.at.Values`nodesIndex, trie.at.Values`firstChild, trie.at.Values`childrenIndex
      modifies `nextNodesIndex, `childrenEncoding, `firstCall, `order, `processed
      ensures !old(firstCall) ==> !firstCall
      ensures Closed(trie.kids) && p in trie.kids
      ensures ok ==> Going() && order == old(order) + Preorder(trie.kids, p, h)
      ensures ok ==> processed == old(processed) + Subtree(trie.kids, p)
      ensures !ok ==> Broken() && order <= old(order) + Preorder(trie.kids, p, h)
      decreases h, 1
    {
      hide Trie.Valid, Closed, Progress, Tracked, Unused, IsPrefix, Shallow, Block, Preorder, Rest, Subtree, Partial,
           Broken, Parent;
      TrieFacts();
      SubtreeHas(trie.kids, p);
      ChildrenInside(n, p);
      PreorderIs(trie.kids, p, h);
      ok := AssignIndexes(n, p);
      if !ok {
        return;
      }
      KindAt(n, p);
      if |n.children| == 0 {
        PartialAll(trie.kids, p);
        return;
      }
      Regroup(old(order), Block(trie.kids, p), Rest(trie.kids, p, 0, h - 1));
      ok := AssignBelow(n, p, h, old(processed), old(order) + Preorder(trie.kids, p, h));
    }

    /** The loop of walk over the children. */
    method AssignBelow(n: Node, ghost p: Path, ghost h: nat, ghost before: set<Path>, ghost want: seq<Path>)
      returns (ok: bool)
      requires Going() && p in trie.at && n == trie.at[p] && Shallow(trie.kids, p, h) && h > 0 && !firstCall
      requires Subtree(trie.kids, p) !! before && processed == before + Partial(trie.kids, p, 0)
      requires order + Rest(trie.kids, p, 0, h - 1) == want
      modifies trie.at.Values`nodesIndex, trie.at.Values`firstChild, trie.at.Values`childrenIndex
      modifies `nextNodesIndex, `childrenEncoding, `firstCall, `order, `processed
      ensures !firstCall && p in trie.kids
      ensures ok ==> Going() && order == want && processed == before + Subtree(trie.kids, p)
      ensures !ok ==> Broken() && order <= want
      decreases h, 0
    {
      hide Trie.Valid, Closed, Progress, Tracked, Unused, IsPrefix, Shallow, Block, Preorder, Rest, Subtree, Partial,
           Broken, Parent;
      KindAt(n, p);
      RestEnd(trie.kids, p, h - 1);
      ghost var k := trie.kids;
      ok := true;
      var i := 0;
      while i < |n.children|
        invariant 0 <= i <= |n.children| == |k[p]| && Going() && !firstCall && ok
        invariant processed == before + Partial(k, p, i)
        invariant order + Rest(k, p, i, h - 1) == want
      {
        Increases(p);
        PartialNext(k, p, i);
        PartialHas(k, p, i);
        ShallowBelow(k, p, h, i);
        ChildAt(n, p, i);
        RestStep(k, p, i, h - 1);
        Regroup(order, Preorder(k, p + [k[p][i]], h - 1), Rest(k, p, i + 1, h - 1));
        ok := AssignWalk(n.children[i], p + [k[p][i]], h - 1);
        if !ok {
          return;
        }
        i := i + 1;
      }
      PartialAll(k, p);
    }
  }

  lemma {:induction false} PartialHas(kids: Kids, p: Path, i: nat)
    requires p in kids && i < |kids[p]|
    ensures p in Partial(kids, p, i) && Parent(p + [kids[p][i]]) == p && p + [kids[p][i]] != []
  {
    if i > 0 {
      PartialHas(kids, p, i - 1);
    }
  }

  lemma RestEnd(kids: Kids, p: Path, h: nat)
    requires Closed(kids) && p in kids
    ensures Rest(kids, p, |kids[p]|, h) == []
  {
  }

  lemma Regroup<T>(a: seq<T>, b: seq<T>, c: seq<T>)
    ensures (a + b) + c == a + (b + c)
  {
  }

  lemma SubtreeHas(kids: Kids, p: Path)
    requires p in kids
    ensures p in Subtree(kids, p)
  {
  }

  lemma PreorderIs(kids: Kids, p: Path, h: nat)
    requires Closed(kids) && p in kids && Shallow(kids, p, h)
    ensures kids[p] == [] ==> Preorder(kids, p, h) == Block(kids, p) == []
    ensures kids[p] != [] ==> h > 0 && Preorder(kids, p, h) == Block(kids, p) + Rest(kids, p, 0, h - 1)
    ensures kids[p] != [] ==> Rest(kids, p, |kids[p]|, h - 1) == []
    ensures |Block(kids, p)| == |kids[p]| <= |Preorder(kids, p, h)|
    ensures Partial(kids, p, 0) == {p}
  {
    if kids[p] != [] {
      ShallowBelow(kids, p, h, 0);
    }
  }

  lemma RestStep(kids: Kids, p: Path, i: nat, h: nat)
    requires Closed(kids) && p in kids && i < |kids[p]|
    ensures p + [kids[p][i]] in kids
    ensures Rest(kids, p, i, h) == Preorder(kids, p + [kids[p][i]], h) + Rest(kids, p, i + 1, h)
    ensures Partial(kids, p, i + 1) == Partial(kids, p, i) + Subtree(kids, p + [kids[p][i]])
  {
    assert kids[p][i] in kids[p];
  }
}
