/** The trie that publicsuffix/gen.go builds from the rule list, one rule at a time. */
module SuffixTrie {
  import opened Strings
  import opened SuffixRules

  class Node {
    var name: string
    var nodeType: int
    var icann: bool
    var wildcard: bool
    var nodesIndex: nat
    var childrenIndex: nat
    var firstChild: nat
    var children: seq<Node>

    constructor (name: string)
      ensures this.name == name && nodeType == PARENT_ONLY && icann && !wildcard && children == [] && childrenIndex == 0
    {
      this.name, nodeType, icann, wildcard := name, PARENT_ONLY, true, false;
      nodesIndex, childrenIndex, firstChild, children := 0, 0, 0, [];
    }

    /** Go's zero value, as the root is declared. */
    constructor Zero()
      ensures children == [] && nodeType == NORMAL && childrenIndex == 0
    {
      name, nodeType, icann, wildcard := "", NORMAL, false, false;
      nodesIndex, childrenIndex, firstChild, children := 0, 0, 0, [];
    }

    /** What the node of a rule takes on. */
    method Note(nt: int, wildcard: bool, icann: bool)
      modifies `nodeType, `wildcard, `icann
      ensures nodeType == if nt != PARENT_ONLY && old(nodeType) == PARENT_ONLY then nt else old(nodeType)
      ensures this.icann == (old(this.icann) && icann) && this.wildcard == (old(this.wildcard) || wildcard)
    {
      if nt != PARENT_ONLY && nodeType == PARENT_ONLY {
        nodeType := nt;
      }
      this.icann := this.icann && icann;
      this.wildcard := this.wildcard || wildcard;
    }
  }

  /** Where x belongs among increasing names. */
  function Below(ks: seq<string>, x: string): (i: nat)
    ensures i <= |ks|
    ensures forall j :: 0 <= j < i ==> Less(ks[j], x)
    ensures i < |ks| ==> !Less(ks[i], x)
  {
    if ks == [] || !Less(ks[0], x) then 0 else Below(ks[1..], x) + 1
  }

  function Placed(ks: seq<string>, x: string): seq<string> {
    ks[..Below(ks, x)] + [x] + ks[Below(ks, x)..]
  }

  lemma BelowSplits(ks: seq<string>, x: string)
    requires Increasing(ks) && x !in ks
    ensures forall j :: 0 <= j < Below(ks, x) ==> Less(ks[j], x)
    ensures forall j :: Below(ks, x) <= j < |ks| ==> Less(x, ks[j])
  {
    hide Less;
    var i := Below(ks, x);
    forall j | i <= j < |ks|
      ensures Less(x, ks[j])
    {
      assert ks[i] in ks;
      LessTotal(ks[i], x);
      if j > i {
        LessTransitive(x, ks[i], ks[j]);
      }
    }
  }

  lemma PlacedIncreasing(ks: seq<string>, x: string)
    requires Increasing(ks) && x !in ks
    ensures Increasing(Placed(ks, x))
    ensures forall y :: y in Placed(ks, x) <==> y == x || y in ks
  {
    hide Less, Below;
    BelowSplits(ks, x);
    assert ks == ks[..Below(ks, x)] + ks[Below(ks, x)..];
  }

  /** A trie as values: the node at each path, the names of its children, its children, and its own name. */
  datatype View = View(at: map<Path, Node>, kids: map<Path, seq<string>>, children: map<Path, seq<Node>>,
                       name: map<Path, string>)

  /** Every node is one path's; its children are, in order of name, the nodes one label further. */
  ghost predicate WellShaped(v: View, root: Node, labels: set<string>) {
    && v.at.Keys == v.kids.Keys == v.children.Keys == v.name.Keys
    && [] in v.at && v.at[[]] == root
    && (forall p, q :: p in v.at && q in v.at && v.at[p] == v.at[q] ==> p == q)
    && (forall p :: p in v.at ==> ChildrenAre(v, p))
    && (forall p, x :: p + [x] in v.at ==> p in v.at && x in v.kids[p] && x in labels && v.name[p + [x]] == x)
  }

  ghost predicate ChildrenAre(v: View, p: Path)
    requires v.at.Keys == v.kids.Keys == v.children.Keys == v.name.Keys && p in v.at
  {
    && Increasing(v.kids[p]) && |v.children[p]| == |v.kids[p]|
    && forall i :: 0 <= i < |v.kids[p]| ==>
         p + [v.kids[p][i]] in v.at && v.children[p][i] == v.at[p + [v.kids[p][i]]]
  }

  /** The trie with a new, childless node c among the children of p. */
  ghost function WithChild(v: View, p: Path, name: string, c: Node): View
    requires p in v.kids && p in v.children && Below(v.kids[p], name) <= |v.children[p]|
  {
    var k, q := Below(v.kids[p], name), p + [name];
    View(v.at[q := c],
         v.kids[p := Placed(v.kids[p], name)][q := []],
         v.children[p := v.children[p][..k] + [c] + v.children[p][k..]][q := []],
         v.name[q := name])
  }

  ghost predicate SameKeys(v: View) {
    v.at.Keys == v.kids.Keys == v.children.Keys == v.name.Keys
  }

  lemma ShapeAt(v: View, root: Node, labels: set<string>, p: Path)
    requires WellShaped(v, root, labels) && p in v.at
    ensures SameKeys(v) && ChildrenAre(v, p)
  {
  }

  lemma ShapeAbove(v: View, root: Node, labels: set<string>, p: Path, x: string)
    requires WellShaped(v, root, labels) && p + [x] in v.at
    ensures SameKeys(v) && p in v.at && x in v.kids[p] && x in labels && v.name[p + [x]] == x
  {
  }

  lemma ChildrenAbove(v: View, root: Node, labels: set<string>, p: Path, name: string)
    requires WellShaped(v, root, labels) && p in v.at && name !in v.kids[p]
    ensures p + [name] !in v.at
  {
    if p + [name] in v.at {
      ShapeAbove(v, root, labels, p, name);
    }
  }

  lemma OtherChildren(v: View, p: Path, name: string, c: Node, r: Path)
    requires SameKeys(v) && p in v.at && r in v.at && |v.children[p]| == |v.kids[p]|
    requires r != p && p + [name] !in v.at && ChildrenAre(v, r)
    ensures ChildrenAre(WithChild(v, p, name, c), r)
  {
    hide Less, Below, Increasing, Placed;
    var w := WithChild(v, p, name, c);
    assert w.kids[r] == v.kids[r] && w.children[r] == v.children[r];
  }

  lemma WithChildParent(v: View, p: Path, name: string, c: Node)
    requires SameKeys(v) && p in v.at && name !in v.kids[p] && p + [name] !in v.at && ChildrenAre(v, p)
    ensures ChildrenAre(WithChild(v, p, name, c), p)
  {
    hide Less, Below, Increasing;
    var w, q, k := WithChild(v, p, name, c), p + [name], Below(v.kids[p], name);
    PlacedIncreasing(v.kids[p], name);
    var ks, cs := v.kids[p], v.children[p];
    assert w.kids[p] == Placed(ks, name) && w.children[p] == cs[..k] + [c] + cs[k..];
    forall i | 0 <= i < |w.kids[p]|
      ensures p + [w.kids[p][i]] in w.at && w.children[p][i] == w.at[p + [w.kids[p][i]]]
    {
      if i != k {
        var j := if i < k then i else i - 1;
        assert w.kids[p][i] == ks[j] && w.children[p][i] == cs[j];
        assert p + [ks[j]] in v.at && cs[j] == v.at[p + [ks[j]]];
      }
    }
  }

  lemma WithChildNames(v: View, root: Node, labels: set<string>, p: Path, name: string, c: Node, r: Path, x: string)
    requires WellShaped(v, root, labels) && p in v.at && name in labels && name !in v.kids[p]
    requires |v.children[p]| == |v.kids[p]| && r + [x] in WithChild(v, p, name, c).at
    ensures
      var w := WithChild(v, p, name, c);
      r in w.at && r in w.kids && x in w.kids[r] && x in labels && r + [x] in w.name && w.name[r + [x]] == x
  {
    hide Less, Below, WellShaped, Increasing, Placed;
    ShapeAt(v, root, labels, p);
    PlacedIncreasing(v.kids[p], name);
    var q := p + [name];
    if r + [x] == q {
      assert r == p && x == name by {
        assert (r + [x])[..|r|] == r && q[..|p|] == p && |r| == |p|;
        assert (r + [x])[|r|] == x && q[|p|] == name;
      }
    } else {
      ShapeAbove(v, root, labels, r, x);
      ChildrenAbove(v, root, labels, p, name);
    }
  }

  lemma WithChildShaped(v: View, root: Node, labels: set<string>, p: Path, name: string, c: Node)
    requires WellShaped(v, root, labels) && p in v.at && name in labels && name !in v.kids[p]
    requires c !in v.at.Values
    ensures |v.children[p]| == |v.kids[p]|
    ensures WellShaped(WithChild(v, p, name, c), root, labels)
  {
    hide Less, Below, Increasing, Placed, ChildrenAre, WithChild;
    ShapeAt(v, root, labels, p);
    ChildCount(v, p);
    ChildrenAbove(v, root, labels, p, name);
    WithChildNodes(v, root, p, name, c);
    var w, q := WithChild(v, p, name, c), p + [name];
    forall r | r in w.at
      ensures ChildrenAre(w, r)
    {
      if r == q {
        NoChildren(w, q);
      } else if r == p {
        WithChildParent(v, p, name, c);
      } else {
        OtherChildren(v, p, name, c, r);
      }
    }
    forall r, x | r + [x] in w.at
      ensures r in w.at && x in w.kids[r] && x in labels && w.name[r + [x]] == x
    {
      WithChildNames(v, root, labels, p, name, c, r, x);
    }
  }

  /** The new child is one node more, at a path of its own. */
  lemma WithChildNodes(v: View, root: Node, p: Path, name: string, c: Node)
    requires SameKeys(v) && p in v.at && p + [name] !in v.at && [] in v.at && v.at[[]] == root && c !in v.at.Values
    requires |v.children[p]| == |v.kids[p]|
    requires forall p, q :: p in v.at && q in v.at && v.at[p] == v.at[q] ==> p == q
    ensures
      var w, q := WithChild(v, p, name, c), p + [name];
      && SameKeys(w) && w.at.Keys == v.at.Keys + {q} && w.kids[q] == [] && w.children[q] == []
      && [] in w.at && w.at[[]] == root
      && forall p, q :: p in w.at && q in w.at && w.at[p] == w.at[q] ==> p == q
  {
    hide Less, Below, Placed;
  }

  lemma ChildCount(v: View, p: Path)
    requires SameKeys(v) && p in v.at && ChildrenAre(v, p)
    ensures |v.children[p]| == |v.kids[p]|
  {
  }

  lemma NoChildren(v: View, p: Path)
    requires SameKeys(v) && p in v.at && v.kids[p] == [] && v.children[p] == []
    ensures ChildrenAre(v, p)
  {
  }

  class Trie {
    var root: Node
    var labels: set<string>
    ghost var at: map<Path, Node>
    ghost var kids: map<Path, seq<string>>
    ghost var rules: seq<Rule>
    ghost var marks: seq<bool>

    ghost function Viewed(): View
      reads `at, `kids, at.Values`children, at.Values`name
    {
      View(at, kids, map p | p in at :: at[p].children, map p | p in at :: at[p].name)
    }

    ghost predicate Shape()
      reads `root, `labels, `at, `kids, at.Values`children, at.Values`name
    {
      WellShaped(Viewed(), root, labels)
    }

    /** Each node records what the rules so far say about its path. */
    ghost predicate Attributes()
      reads `at, `rules, at.Values`nodeType, at.Values`wildcard
    {
      && ([] in at ==> at[[]].nodeType == NORMAL)
      && forall p :: p in at && p != [] ==>
        at[p].nodeType == TypeOf(rules, p) && (at[p].wildcard <==> WildcardAt(rules, p))
    }

    ghost predicate Valid()
      reads this, at.Values`children, at.Values`name, at.Values`nodeType, at.Values`wildcard
    {
      Shape() && Attributes() && forall p :: p in at <==> InTrie(rules, p)
    }

    /** Each node records whether all the rules for its path are in the list's ICANN section. */
    ghost predicate Marked()
      reads `at, `rules, `marks, at.Values`icann
    {
      |marks| == |rules| && forall p :: p in at && p != [] ==> (at[p].icann <==> IcannAt(rules, marks, p))
    }

    /** No node refers to the children table yet. */
    ghost predicate Unassigned()
      reads `at, at.Values`childrenIndex
    {
      forall p :: p in at ==> at[p].childrenIndex == 0
    }

    constructor ()
      ensures Valid() && rules == [] && fresh(root) && at == map[[] := root]
      ensures Unassigned() && labels == {} && Marked() && marks == []
    {
      var r := new Node.Zero();
      root, labels := r, {};
      at, kids, rules, marks := map[[] := r], map[[] := []], [], [];
    }

    /** Creating a child of n at index k of its children. */
    method AddChild(n: Node, name: string, k: nat, ghost p: Path) returns (c: Node)
      requires Shape() && p in at && n == at[p] && name in labels
      requires p in kids && name !in kids[p] && k == Below(kids[p], name) <= |n.children|
      modifies n`children, this`at, this`kids
      ensures Shape() && p + [name] !in old(at)
      ensures fresh(c) && at == old(at)[p + [name] := c]
      ensures c.nodeType == PARENT_ONLY && c.icann && !c.wildcard && c.childrenIndex == 0
    {
      hide Less, Below, InTrie, TypeOf, WildcardAt, WellShaped, Placed, Viewed;
      ghost var v, q := Viewed(), p + [name];
      ViewAt();
      NoChildYet(p, name);
      c := new Node(name);
      n.children := n.children[..k] + [c] + n.children[k..];
      WithChildShaped(v, root, labels, p, name, c);
      at, kids := at[q := c], kids[p := Placed(kids[p], name)][q := []];
      GrownView(v, p, name, c);
    }

    lemma ViewAt()
      ensures Viewed().at == at && Viewed().kids == kids
      ensures Viewed().children.Keys == at.Keys == Viewed().name.Keys
      ensures forall r :: r in at ==> Viewed().children[r] == at[r].children && Viewed().name[r] == at[r].name
    {
    }

    /** Where only the children of p's node are others than before, this is the trie with the new child. */
    lemma GrownView(v: View, p: Path, name: string, c: Node)
      requires p in v.kids && p in v.children && p in v.at && Below(v.kids[p], name) <= |v.children[p]|
      requires SameKeys(v) && p + [name] !in v.at && c.children == [] && c.name == name
      requires at == v.at[p + [name] := c]
      requires kids == v.kids[p := Placed(v.kids[p], name)][p + [name] := []]
      requires var k := Below(v.kids[p], name); v.at[p].children == v.children[p][..k] + [c] + v.children[p][k..]
      requires forall r :: r in v.at ==> v.at[r].name == v.name[r] && (r != p ==> v.at[r].children == v.children[r])
      ensures Viewed() == WithChild(v, p, name, c)
    {
      hide Less, Below, Placed;
      var w, q := WithChild(v, p, name, c), p + [name];
      assert q != p;
      forall r | r in at
        ensures at[r].children == w.children[r] && at[r].name == w.name[r]
      {
        if r != q {
          assert at[r] == v.at[r];
        }
      }
      ViewIs(w);
    }

    /** node.child: the child of n with that name, created in its place if there is none. */
    method Child(n: Node, name: string, ghost p: Path) returns (c: Node)
      requires Shape() && Attributes() && p in at && n == at[p] && name in labels
      requires p + [name] in at || !InTrie(rules, p + [name])
      modifies n`children, this`at, this`kids
      ensures Shape() && Attributes()
      ensures p + [name] in at && at[p + [name]] == c
      ensures p + [name] in old(at) ==> at == old(at)
      ensures p + [name] !in old(at) ==> fresh(c) && at == old(at)[p + [name] := c]
      ensures (old(Unassigned()) ==> Unassigned()) && (old(Marked()) ==> Marked())
    {
      hide Less, Below, InTrie, WellShaped, TypeOf, WildcardAt, IcannAt;
      ChildrenOf(n, p);
      ghost var ks := kids[p];
      var i := 0;
      while i < |n.children|
        invariant 0 <= i <= |n.children|
        invariant forall j :: 0 <= j < i ==> ks[j] != name
      {
        if n.children[i].name == name {
          return n.children[i];
        }
        i := i + 1;
      }
      var k := 0;
      while k < |n.children| && Less(n.children[k].name, name)
        invariant 0 <= k <= |n.children|
        invariant forall j :: 0 <= j < k ==> Less(ks[j], name)
      {
        k := k + 1;
      }
      BelowIs(ks, name, k);
      c := AddChild(n, name, k, p);
      NewPath(rules, p + [name]);
      if |marks| == |rules| {
        NewMark(rules, marks, p + [name]);
      }
      forall q | q in at && q != []
        ensures at[q].nodeType == TypeOf(rules, q) && (at[q].wildcard <==> WildcardAt(rules, q))
      {
        if q != p + [name] {
          assert at[q] == old(at[q]);
        }
      }
    }

    method RecordLabel(name: string)
      requires Shape()
      modifies this`labels
      ensures Shape() && labels == old(labels) + {name}
    {
      hide WellShaped;
      MoreLabels(Viewed(), root, labels, labels + {name});
      labels := labels + {name};
    }

    /** One round of the loop over a rule's labels. */
    method DescendStep(n: Node, ls: Path, i: nat) returns (c: Node)
      requires i < |ls| && Shape() && Attributes() && ls[..i] in at && at[ls[..i]] == n
      requires forall p :: p in at <==> InTrie(rules, p) || IsPrefix(p, ls[..i])
      modifies n`children, this`labels, this`at, this`kids
      ensures Shape() && Attributes() && ls[..i + 1] in at && at[ls[..i + 1]] == c
      ensures forall p :: p in old(at) ==> p in at && at[p] == old(at[p])
      ensures forall p :: p in at ==> at[p] in old(at.Values) || fresh(at[p])
      ensures forall p :: p in at <==> InTrie(rules, p) || IsPrefix(p, ls[..i + 1])
      ensures labels == old(labels) + {ls[i]} && (old(Unassigned()) ==> Unassigned()) && (old(Marked()) ==> Marked())
    {
      hide InTrie, TypeOf, WildcardAt, WellShaped, Attributes, IsPrefix, IcannAt;
      RecordLabel(ls[i]);
      assert ls[..i] + [ls[i]] == ls[..i + 1];
      PrefixStep(ls, i + 1);
      c := Child(n, ls[i], ls[..i]);
    }

    /** The path from the root to the node of a rule, created as far as it is missing. */
    method Descend(ls: Path) returns (n: Node)
      requires Valid()
      modifies this`labels, this`at, this`kids, at.Values`children
      ensures Shape() && Attributes()
      ensures forall p :: p in old(at) ==> p in at && at[p] == old(at[p])
      ensures forall p :: p in at ==> at[p] in old(at.Values) || fresh(at[p])
      ensures forall p :: p in at <==> InTrie(rules, p) || IsPrefix(p, ls)
      ensures IsPrefix(ls, ls) && at[ls] == n
      ensures labels == old(labels) + (set x | x in ls)
      ensures (old(Unassigned()) ==> Unassigned()) && (old(Marked()) ==> Marked())
    {
      hide InTrie, TypeOf, WildcardAt, Shape, Attributes, IsPrefix, Unassigned, Marked;
      n := root;
      var i := 0;
      RootAt();
      PrefixStep(ls, 0);
      while i < |ls|
        invariant 0 <= i <= |ls| && Shape() && Attributes()
        invariant forall p :: p in old(at) ==> p in at && at[p] == old(at[p])
        invariant ls[..i] in at && at[ls[..i]] == n
        invariant forall p :: p in at ==> at[p] in old(at.Values) || fresh(at[p])
        invariant forall p :: p in at <==> InTrie(rules, p) || IsPrefix(p, ls[..i])
        invariant labels == old(labels) + (set x | x in ls[..i])
        invariant (old(Unassigned()) ==> Unassigned()) && (old(Marked()) ==> Marked())
      {
        assert ls[..i + 1] == ls[..i] + [ls[i]];
        n := DescendStep(n, ls, i);
        i := i + 1;
      }
      assert ls[..i] == ls;
    }

    /** The node of the rule takes on what the rule says, as the first plain or exception rule for it does. */
    method Mark(n: Node, ls: Path, nt: int, wildcard: bool, icann: bool, ghost rule: Rule)
      requires Shape() && Attributes() && ls != [] && ls in at && at[ls] == n
      requires rule.path == ls && (wildcard <==> rule.kind == Wildcard)
      requires nt == match rule.kind case Plain => NORMAL case Exception => EXCEPTION case Wildcard => PARENT_ONLY
      modifies n`nodeType, n`wildcard, n`icann, this`rules, this`marks
      ensures Shape() && Attributes() && rules == old(rules) + [rule] && marks == old(marks) + [icann]
      ensures old(Marked()) ==> Marked()
    {
      hide Attributes, Marked, Shape;
      OnlyAt(ls);
      ghost var kinds := map p | p in at :: (at[p].nodeType, at[p].wildcard);
      ghost var icanns, marked := map p | p in at :: at[p].icann, Marked();
      KindsAre(kinds);
      IcannsAre(icanns);
      n.Note(nt, wildcard, icann);
      rules, marks := rules + [rule], marks + [icann];
      KindAdded(kinds, old(rules), rule, ls);
      if marked {
        IcannAdded(icanns, old(rules), old(marks), rule, icann);
      }
    }

    ghost predicate KindsFor(kinds: map<Path, (int, bool)>, rs: seq<Rule>) {
      && ([] in kinds ==> kinds[[]].0 == NORMAL)
      && forall p :: p in kinds && p != [] ==> kinds[p].0 == TypeOf(rs, p) && (kinds[p].1 <==> WildcardAt(rs, p))
    }

    ghost predicate IcannsFor(icanns: map<Path, bool>, rs: seq<Rule>, ms: seq<bool>) {
      |ms| == |rs| && forall p :: p in icanns && p != [] ==> (icanns[p] <==> IcannAt(rs, ms, p))
    }

    lemma KindsAre(kinds: map<Path, (int, bool)>)
      requires kinds == map p | p in at :: (at[p].nodeType, at[p].wildcard)
      ensures Attributes() <==> KindsFor(kinds, rules)
    {
      hide TypeOf, WildcardAt;
    }

    lemma IcannsAre(icanns: map<Path, bool>)
      requires icanns == map p | p in at :: at[p].icann
      ensures Marked() <==> IcannsFor(icanns, rules, marks)
    {
      hide IcannAt;
    }

    /** The nodes record one rule more if only that rule's own node has changed. */
    lemma KindAdded(kinds: map<Path, (int, bool)>, rs: seq<Rule>, r: Rule, ls: Path)
      requires KindsFor(kinds, rs) && kinds.Keys == at.Keys && ls != [] && ls in at && r.path == ls
      requires rules == rs + [r]
      requires forall p :: p in at && p != ls ==> kinds[p] == (at[p].nodeType, at[p].wildcard)
      requires at[ls].nodeType ==
        if r.kind == Wildcard || kinds[ls].0 != PARENT_ONLY then kinds[ls].0
        else if r.kind == Plain then NORMAL else EXCEPTION
      requires at[ls].wildcard == (kinds[ls].1 || r.kind == Wildcard)
      ensures Attributes()
    {
      hide TypeOf, WildcardAt;
      forall p | p in at && p != []
        ensures at[p].nodeType == TypeOf(rules, p) && (at[p].wildcard <==> WildcardAt(rules, p))
      {
        RuleAdded(rs, r, p);
      }
    }

    lemma IcannAdded(icanns: map<Path, bool>, rs: seq<Rule>, ms: seq<bool>, r: Rule, icann: bool)
      requires IcannsFor(icanns, rs, ms) && icanns.Keys == at.Keys && r.path in at
      requires rules == rs + [r] && marks == ms + [icann]
      requires forall p :: p in at && p != r.path ==> icanns[p] == at[p].icann
      requires at[r.path].icann == (icanns[r.path] && icann)
      ensures Marked()
    {
      hide IcannAt;
      forall p | p in at && p != []
        ensures at[p].icann <==> IcannAt(rules, marks, p)
      {
        MarkAdded(rs, ms, r, icann, p);
      }
    }

    /** The body of main1's loop over the lines: parse a rule, walk to its node, note what the rule says there. */
    method AddRule(s: string, icann: bool)
      requires Valid()
      modifies this, at.Values
      ensures Valid() && rules == old(rules) + [ParseRule(s)] && root == old(root)
      ensures forall p :: p in at ==> at[p] in old(at.Values) || fresh(at[p])
      ensures labels == old(labels) + (set x | x in ParseRule(s).path) && (old(Unassigned()) ==> Unassigned())
      ensures marks == old(marks) + [icann] && (old(Marked()) ==> Marked())
    {
      hide InTrie, TypeOf, WildcardAt, WellShaped, Labels, Attributes, IsPrefix, Marked;
      var body, nt, wildcard := s, NORMAL, false;
      if "*." <= s {
        body, nt, wildcard := s[2..], PARENT_ONLY, true;
      } else if "!" <= s {
        body, nt := s[1..], EXCEPTION;
      }
      ghost var rule := ParseRule(s);
      var n := Descend(Labels(body));
      Mark(n, Labels(body), nt, wildcard, icann, rule);
      forall p
        ensures p in at <==> InTrie(rules, p)
      {
        PathAdded(old(rules), rule, p);
      }
    }

    lemma RootAt()
      requires Shape()
      ensures [] in at && at[[]] == root
    {
    }

    lemma OnlyAt(ls: Path)
      requires Shape() && ls in at
      ensures forall p :: p in at && p != ls ==> at[p] != at[ls]
    {
      ghost var v := Viewed();
    }

    lemma ViewIs(w: View)
      requires w.at == at && w.kids == kids && w.children.Keys == at.Keys == w.name.Keys
      requires forall r :: r in at ==> at[r].children == w.children[r] && at[r].name == w.name[r]
      ensures Viewed() == w
    {
      assert Viewed().children == w.children;
      assert Viewed().name == w.name;
    }

    lemma NoChildYet(p: Path, name: string)
      requires Shape() && p in at && p in kids && name !in kids[p]
      ensures at.Keys == kids.Keys && p + [name] !in at && |at[p].children| == |kids[p]|
      ensures forall p, q :: p in at && q in at && at[p] == at[q] ==> p == q
    {
      ghost var v := Viewed();
      assert ChildrenAre(v, p);
    }

    /** What the shape says of the children of one node. */
    lemma ChildrenOf(n: Node, p: Path)
      requires Shape() && p in at && n == at[p]
      ensures p in kids && |n.children| == |kids[p]| && Increasing(kids[p])
      ensures forall i :: 0 <= i < |kids[p]| ==>
        && p + [kids[p][i]] in at
        && n.children[i] == at[p + [kids[p][i]]]
        && n.children[i].name == kids[p][i]
      ensures forall x :: p + [x] in at <==> x in kids[p]
    {
      var v := Viewed();
      assert ChildrenAre(v, p);
      forall i | 0 <= i < |kids[p]|
        ensures n.children[i].name == kids[p][i]
      {
        var q := p + [kids[p][i]];
        assert v.name[q] == kids[p][i];
      }
    }
  }

  lemma {:induction false} BelowIs(ks: seq<string>, x: string, k: nat)
    requires k <= |ks| && (forall j :: 0 <= j < k ==> Less(ks[j], x)) && (k < |ks| ==> !Less(ks[k], x))
    ensures Below(ks, x) == k
  {
    hide Less;
    if k > 0 {
      BelowIs(ks[1..], x, k - 1);
    }
  }

  /** A path no rule reaches has no type and no wildcard. */
  lemma {:induction false} NewPath(rules: seq<Rule>, p: Path)
    requires !InTrie(rules, p)
    ensures TypeOf(rules, p) == PARENT_ONLY && !WildcardAt(rules, p)
  {
    TypeMeaning(rules, p);
    assert forall k :: p <= Rule(p, k).path;
  }

  predicate IsPrefix(p: Path, q: Path) {
    p <= q
  }

  lemma PrefixStep(ls: Path, i: nat)
    requires i <= |ls|
    ensures i == 0 ==> forall p :: IsPrefix(p, ls[..i]) <==> p == []
    ensures i > 0 ==> forall p :: IsPrefix(p, ls[..i]) <==> IsPrefix(p, ls[..i - 1]) || p == ls[..i]
    ensures IsPrefix(ls, ls)
  {
    forall p: Path
      ensures i > 0 ==> (IsPrefix(p, ls[..i]) <==> IsPrefix(p, ls[..i - 1]) || p == ls[..i])
    {
      if p <= ls[..i] {
        assert p == ls[..|p|];
      }
    }
  }

  lemma MoreLabels(v: View, root: Node, labels: set<string>, more: set<string>)
    requires WellShaped(v, root, labels) && labels <= more
    ensures WellShaped(v, root, more)
  {
    hide ChildrenAre;
  }

  /** What one rule more changes for a path: only at the rule's own path, and only as the code does it. */
  lemma RuleAdded(rules: seq<Rule>, r: Rule, p: Path)
    ensures WildcardAt(rules + [r], p) <==> WildcardAt(rules, p) || (r.kind == Wildcard && r.path == p)
    ensures TypeOf(rules + [r], p)
         == if TypeOf(rules, p) != PARENT_ONLY || r.path != p || r.kind == Wildcard then TypeOf(rules, p)
            else if r.kind == Plain then NORMAL else EXCEPTION
  {
    assert (rules + [r])[..|rules|] == rules;
    assert r.path == p && r.kind == Wildcard ==> r == Rule(p, Wildcard);
  }

  lemma MarkAdded(rules: seq<Rule>, marks: seq<bool>, r: Rule, icann: bool, p: Path)
    requires |marks| == |rules|
    ensures IcannAt(rules + [r], marks + [icann], p) <==> IcannAt(rules, marks, p) && (r.path == p ==> icann)
  {
    var rs, ms := rules + [r], marks + [icann];
    assert rs[|rules|] == r && ms[|rules|] == icann;
    assert forall i :: 0 <= i < |rules| ==> rs[i] == rules[i] && ms[i] == marks[i];
  }

  /** A path no rule reaches has no rule of its own. */
  lemma NewMark(rules: seq<Rule>, marks: seq<bool>, p: Path)
    requires |marks| == |rules| && !InTrie(rules, p)
    ensures IcannAt(rules, marks, p)
  {
  }

  lemma PathAdded(rules: seq<Rule>, r: Rule, p: Path)
    ensures InTrie(rules + [r], p) <==> InTrie(rules, p) || IsPrefix(p, r.path)
  {
    assert r in rules + [r] && forall x :: x in rules ==> x in rules + [r];
  }
}
