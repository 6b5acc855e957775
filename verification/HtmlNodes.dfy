/** The sibling lists and the node stack of html/node.go. */
module HtmlNodes {
  class Node {
    var parent: Node?
    var firstChild: Node?
    var lastChild: Node?
    var prevSibling: Node?
    var nextSibling: Node?
    /** The node's children in order, which the pointers stand for. */
    ghost var children: seq<Node>

    constructor ()
      ensures Pointers() == Links(null, null, null, null, null, [])
    {
      parent, firstChild, lastChild, prevSibling, nextSibling := null, null, null, null, null;
      children := [];
    }

    ghost function Pointers(): Links
      reads this
    {
      Links(parent, firstChild, lastChild, prevSibling, nextSibling, children)
    }

    /** The assignments of InsertBefore and AppendChild. */
    method Link(c: Node, prev: Node?, next: Node?, ghost all: set<Node>)
      requires this in all && c in all && (prev != null ==> prev in all) && (next != null ==> next in all)
      modifies all
      ensures forall m :: m in all ==>
        && m.children == old(m.children)
        && m.parent == (if m == c then this else old(m.parent))
        && m.firstChild == (if m == this && prev == null then c else old(m.firstChild))
        && m.lastChild == (if m == this && next == null then c else old(m.lastChild))
        && m.prevSibling == (if m == c then prev else if m == next then c else old(m.prevSibling))
        && m.nextSibling == (if m == c then next else if m == prev then c else old(m.nextSibling))
    {
      if prev != null {
        prev.nextSibling := c;
      } else {
        firstChild := c;
      }
      if next != null {
        next.prevSibling := c;
      } else {
        lastChild := c;
      }
      c.parent := this;
      c.prevSibling := prev;
      c.nextSibling := next;
    }

    /** Those changes; if they put c between two children next to each other, it is listed there. */
    method Splice(c: Node, prev: Node?, next: Node?, ghost listed: bool, ghost k: nat, ghost all: set<Node>)
      requires this in all && c in all && (prev != null ==> prev in all) && (next != null ==> next in all)
      requires listed ==>
        && k <= |children| && c !in children && Distinct(children) && (forall d :: d in children ==> d in all)
        && prev == At(children, k - 1) && next == At(children, k)
      modifies all
      ensures listed ==> Seen(all) == Inserted(old(Seen(all)), this, c, k)
      ensures c.nextSibling == next
      ensures forall m :: m in all ==> m.parent == if m == c then this else old(m.parent)
    {
      hide Inserted, Spliced, Distinct, At;
      ghost var before := Seen(all);
      Link(c, prev, next, all);
      if listed {
        Neighbours(old(children), k, c);
        children := Spliced(children, k, c);
        forall m | m in all
          ensures m in Inserted(before, this, c, k) && m.Pointers() == Inserted(before, this, c, k)[m]
        {
          assert before[m] == old(m.Pointers());
          InsertedIs(before, this, c, k, m);
        }
        InsertedDomain(before, this, c, k);
      }
    }

    /** InsertBefore asks for a child of this node, or nothing. */
    predicate IsPlace(oldChild: Node?)
      reads oldChild
    {
      oldChild == null || oldChild.parent == this
    }

    /**
     * InsertBefore; it panics if the new child is attached. It does not check that oldChild is a child of this node,
     * and exactly if it is, or is nil, the lists stay consistent. Nor does it check that the new child is not this
     * node or above it, which would close a cycle of parents.
     */
    method InsertBefore(newChild: Node, oldChild: Node?, ghost all: set<Node>) returns (panics: bool)
      requires Consistent(Seen(all)) && this in all && newChild in all && (oldChild != null ==> oldChild in all)
      modifies all
      ensures panics == old(Attached(newChild.Pointers()))
      ensures Consistent(Seen(all)) <==> panics || old(IsPlace(oldChild))
      ensures panics || old(IsPlace(oldChild)) ==>
        var k := if oldChild == null then |old(children)| else Position(old(children), oldChild);
        Seen(all) == if panics then old(Seen(all)) else Inserted(old(Seen(all)), this, newChild, k)
      ensures !panics && !old(IsPlace(oldChild)) ==>
        newChild.nextSibling == oldChild && (newChild == oldChild || newChild.parent != oldChild.parent)
      ensures old(Acyclic(Seen(all))) ==> (Acyclic(Seen(all)) <==> panics || !old(Within(Seen(all), this, newChild)))
    {
      hide Consistent, Inserted, Acyclic, Within;
      if newChild.parent != null || newChild.prevSibling != null || newChild.nextSibling != null {
        return true;
      }
      ghost var k := if oldChild == null then |children| else Position(children, oldChild);
      ghost var before, listed := Seen(all), IsPlace(oldChild);
      ListIsIn(before, this, newChild);
      var prev, next: Node? := null, null;
      if oldChild != null {
        if listed {
          ChildIs(before, this, oldChild);
        }
        PrevIsIn(before, oldChild);
        prev, next := oldChild.prevSibling, oldChild;
      } else {
        prev := lastChild;
      }
      Splice(newChild, prev, next, listed, k, all);
      Reparented(before, Seen(all), this, newChild);
      if listed {
        InsertKeeps(before, this, newChild, k);
      } else {
        Misplaced(Seen(all), newChild);
      }
      return false;
    }

    /** AppendChild; it panics if the child is attached. */
    method AppendChild(c: Node, ghost all: set<Node>) returns (panics: bool)
      requires Consistent(Seen(all)) && this in all && c in all
      modifies all
      ensures Consistent(Seen(all)) && panics == old(Attached(c.Pointers()))
      ensures Seen(all) == if panics then old(Seen(all)) else Inserted(old(Seen(all)), this, c, |old(children)|)
      ensures old(Acyclic(Seen(all))) ==> (Acyclic(Seen(all)) <==> panics || !old(Within(Seen(all), this, c)))
    {
      hide Consistent, Inserted, Acyclic, Within;
      if c.parent != null || c.prevSibling != null || c.nextSibling != null {
        return true;
      }
      ghost var before := Seen(all);
      ListIsIn(before, this, c);
      var last := lastChild;
      Splice(c, last, null, true, |children|, all);
      Reparented(before, Seen(all), this, c);
      InsertKeeps(before, this, c, |old(children)|);
      return false;
    }

    /** The part of RemoveChild that makes the rest of the list pass c by. */
    method Bypass(c: Node, ghost all: set<Node>)
      requires this in all && c in all && c.prevSibling != c && c.nextSibling != c
      requires c.prevSibling != null ==> c.prevSibling in all && c.prevSibling != c.nextSibling
      requires c.nextSibling != null ==> c.nextSibling in all
      modifies all
      ensures forall m :: m in all ==>
        && m.parent == old(m.parent) && m.children == old(m.children)
        && m.firstChild == (if m == this && old(m.firstChild) == c then old(c.nextSibling) else old(m.firstChild))
        && m.lastChild == (if m == this && old(m.lastChild) == c then old(c.prevSibling) else old(m.lastChild))
        && m.prevSibling == (if m == old(c.nextSibling) then old(c.prevSibling) else old(m.prevSibling))
        && m.nextSibling == (if m == old(c.prevSibling) then old(c.nextSibling) else old(m.nextSibling))
    {
      if firstChild == c {
        firstChild := c.nextSibling;
      }
      if c.nextSibling != null {
        c.nextSibling.prevSibling := c.prevSibling;
      }
      if lastChild == c {
        lastChild := c.prevSibling;
      }
      if c.prevSibling != null {
        c.prevSibling.nextSibling := c.nextSibling;
      }
    }

    /** The assignments of RemoveChild. */
    method Release(c: Node, ghost all: set<Node>)
      requires this in all && c in all && c.prevSibling != c && c.nextSibling != c
      requires c.prevSibling != null ==> c.prevSibling in all && c.prevSibling != c.nextSibling
      requires c.nextSibling != null ==> c.nextSibling in all
      modifies all
      ensures forall m :: m in all ==>
        && m.parent == (if m == c then null else old(m.parent)) && m.children == old(m.children)
        && m.firstChild == (if m == this && old(m.firstChild) == c then old(c.nextSibling) else old(m.firstChild))
        && m.lastChild == (if m == this && old(m.lastChild) == c then old(c.prevSibling) else old(m.lastChild))
        && m.prevSibling ==
          (if m == c then null else if m == old(c.nextSibling) then old(c.prevSibling) else old(m.prevSibling))
        && m.nextSibling ==
          (if m == c then null else if m == old(c.prevSibling) then old(c.nextSibling) else old(m.nextSibling))
    {
      Bypass(c, all);
      c.parent := null;
      c.prevSibling := null;
      c.nextSibling := null;
    }

    /** Those changes, seen on the lists. */
    method Unlink(c: Node, ghost k: nat, ghost all: set<Node>)
      requires this in all && k < |children| && children[k] == c && Distinct(children)
      requires c.prevSibling == At(children, k - 1) && c.nextSibling == At(children, k + 1)
      requires forall d :: d in children ==> d in all
      modifies all
      ensures Seen(all) == Removed(old(Seen(all)), this, k)
    {
      hide Removed, Distinct, At;
      ghost var before := Seen(all);
      Beside(children, k);
      Release(c, all);
      children := Without(children, k);
      forall m | m in all ensures m in Removed(before, this, k) && m.Pointers() == Removed(before, this, k)[m] {
        assert before[m] == old(m.Pointers());
        RemovedIs(before, this, k, m);
      }
      RemovedDomain(before, this, k);
    }

    /** RemoveChild; it panics if c is not a child of this node. */
    method RemoveChild(c: Node, ghost all: set<Node>) returns (panics: bool)
      requires Consistent(Seen(all)) && this in all && c in all
      modifies all
      ensures Consistent(Seen(all)) && panics == (c !in old(children))
      ensures panics ==> Seen(all) == old(Seen(all))
      ensures !panics ==>
        && Position(old(children), c) < |old(children)| && !Attached(c.Pointers())
        && Seen(all) == Removed(old(Seen(all)), this, Position(old(children), c))
    {
      hide Consistent, Removed;
      ghost var before := Seen(all);
      if c.parent != this {
        ListIsIn(before, this, c);
        return true;
      }
      ChildIs(before, this, c);
      ghost var k := Position(children, c);
      Unlink(c, k, all);
      RemoveKeeps(before, this, k);
      return false;
    }
  }

  /** What a set of nodes looks like. */
  ghost function Seen(all: set<Node>): (f: Family)
    reads all
    ensures f.Keys == all
  {
    map m | m in all :: m.Pointers()
  }

  // ----- lists of siblings, on values -----

  /** The pointers of a node, and the list of its children that they stand for. */
  datatype Links = Links(parent: Node?, first: Node?, last: Node?, prev: Node?, next: Node?, children: seq<Node>)

  type Family = map<Node, Links>

  /** The node at a position, and nothing in front of the first and behind the last. */
  function At(s: seq<Node>, k: int): Node? {
    if 0 <= k < |s| then s[k] else null
  }

  /** Where c stands in a list that holds it, or the length of a list that does not. */
  function Position(s: seq<Node>, c: Node?): (k: nat)
    ensures k <= |s| && (k < |s| ==> s[k] == c) && forall j :: 0 <= j < k ==> s[j] != c
  {
    if s == [] || s[0] == c then 0 else 1 + Position(s[1..], c)
  }

  ghost predicate Distinct(s: seq<Node>) {
    forall i, j :: 0 <= i < j < |s| ==> s[i] != s[j]
  }

  /** The child at position k of n points at its parent and its neighbours. */
  ghost predicate ChildLinked(f: Family, n: Node, k: nat)
    requires n in f && k < |f[n].children|
  {
    var s := f[n].children;
    s[k] in f && f[s[k]].parent == n && f[s[k]].prev == At(s, k - 1) && f[s[k]].next == At(s, k + 1)
  }

  /** The pointers of n and of its children say what its list says. */
  ghost predicate Linked(f: Family, n: Node)
    requires n in f
  {
    var s := f[n].children;
    && Distinct(s) && f[n].first == At(s, 0) && f[n].last == At(s, |s| - 1)
    && forall k: nat :: k < |s| ==> ChildLinked(f, n, k)
  }

  /** A node without a parent has no siblings, and one with a parent is in the parent's list. */
  ghost predicate Placed(f: Family, c: Node)
    requires c in f
  {
    if f[c].parent == null then f[c].prev == null && f[c].next == null
    else f[c].parent in f && c in f[f[c].parent].children
  }

  ghost predicate Consistent(f: Family) {
    (forall n :: n in f ==> Linked(f, n)) && forall c :: c in f ==> Placed(f, c)
  }

  predicate Attached(x: Links) {
    x.parent != null || x.prev != null || x.next != null
  }

  /** The sibling in front of a node is one of the family. */
  lemma PrevIsIn(f: Family, c: Node)
    requires Consistent(f) && c in f
    ensures f[c].prev != null ==> f[c].prev in f
  {
    assert Placed(f, c);
    if f[c].parent != null {
      ChildIs(f, f[c].parent, c);
    }
  }

  /** Whatever the lists, a node whose next sibling is itself or has another parent breaks them. */
  lemma Misplaced(f: Family, c: Node)
    requires c in f && f[c].parent != null && f[c].next != null
    requires f[c].next == c || (f[c].next in f && f[f[c].next].parent != f[c].parent)
    ensures !Consistent(f)
  {
    if Consistent(f) {
      var n := f[c].parent;
      assert Placed(f, c);
      ChildIs(f, n, c);
      ListIsIn(f, n, f[c].next);
    }
  }

  // ----- a node is inserted -----

  function InsertedLinks(x: Links, m: Node, n: Node, c: Node, prev: Node?, next: Node?): Links {
    Links(if m == c then n else x.parent,
          if m == n && prev == null then c else x.first,
          if m == n && next == null then c else x.last,
          if m == c then prev else if m == next then c else x.prev,
          if m == c then next else if m == prev then c else x.next,
          x.children)
  }

  /** c becomes the child of n at position k. */
  ghost function Inserted(f: Family, n: Node, c: Node, k: nat): Family
    requires n in f && k <= |f[n].children|
  {
    var s := f[n].children;
    map m | m in f ::
      var x := InsertedLinks(f[m], m, n, c, At(s, k - 1), At(s, k));
      if m == n then x.(children := Spliced(s, k, c)) else x
  }

  lemma InsertedDomain(f: Family, n: Node, c: Node, k: nat)
    requires n in f && k <= |f[n].children|
    ensures Inserted(f, n, c, k).Keys == f.Keys
  {
  }

  lemma Neighbours(s: seq<Node>, k: nat, c: Node)
    requires Distinct(s) && k <= |s| && c !in s
    ensures var prev, next := At(s, k - 1), At(s, k);
      && prev != c && next != c && (prev != null ==> prev in s && prev != next) && (next != null ==> next in s)
  {
  }

  lemma InsertedIs(f: Family, n: Node, c: Node, k: nat, m: Node)
    requires n in f && k <= |f[n].children| && m in f
    ensures var s, r := f[n].children, Inserted(f, n, c, k);
      m in r && var x := InsertedLinks(f[m], m, n, c, At(s, k - 1), At(s, k));
      r[m] == if m == n then x.(children := Spliced(s, k, c)) else x
  {
  }

  function Spliced(s: seq<Node>, k: nat, c: Node): (r: seq<Node>)
    requires k <= |s|
    ensures |r| == |s| + 1
    ensures forall j :: 0 <= j < |r| ==> r[j] == if j < k then s[j] else if j == k then c else s[j - 1]
  {
    s[..k] + [c] + s[k..]
  }

  /** A node that is in no list has no place in n's. */
  lemma Unlisted(f: Family, n: Node, c: Node)
    requires n in f && Linked(f, n) && c in f && f[c].parent == null
    ensures c !in f[n].children
  {
    forall i: nat | i < |f[n].children| ensures f[n].children[i] != c {
      assert ChildLinked(f, n, i);
    }
  }

  lemma InsertedNew(f: Family, n: Node, c: Node, k: nat)
    requires n in f && c in f && k <= |f[n].children|
    requires Inserted(f, n, c, k)[n].children == Spliced(f[n].children, k, c)
    ensures ChildLinked(Inserted(f, n, c, k), n, k)
  {
    hide Inserted;
    InsertedIs(f, n, c, k, c);
  }

  lemma InsertedFront(f: Family, n: Node, c: Node, k: nat, j: nat)
    requires n in f && Linked(f, n) && c in f && c !in f[n].children && j < k <= |f[n].children|
    requires Inserted(f, n, c, k)[n].children == Spliced(f[n].children, k, c)
    ensures ChildLinked(Inserted(f, n, c, k), n, j)
  {
    hide Inserted;
    assert ChildLinked(f, n, j);
    InsertedIs(f, n, c, k, f[n].children[j]);
  }

  lemma InsertedBack(f: Family, n: Node, c: Node, k: nat, j: nat)
    requires n in f && Linked(f, n) && c in f && c !in f[n].children && k <= j < |f[n].children|
    requires Inserted(f, n, c, k)[n].children == Spliced(f[n].children, k, c)
    ensures ChildLinked(Inserted(f, n, c, k), n, j + 1)
  {
    hide Inserted;
    assert ChildLinked(f, n, j);
    InsertedIs(f, n, c, k, f[n].children[j]);
  }

  /** A node's list is untouched where neither it nor the pointers of its children are changed. */
  lemma OtherList(f: Family, g: Family, m: Node)
    requires m in f && Linked(f, m) && m in g && g[m].children == f[m].children
    requires g[m].first == f[m].first && g[m].last == f[m].last
    requires forall d :: d in f && f[d].parent == m ==>
      d in g && g[d].parent == m && g[d].prev == f[d].prev && g[d].next == f[d].next
    ensures Linked(g, m)
  {
    forall k: nat | k < |g[m].children| ensures ChildLinked(g, m, k) {
      assert ChildLinked(f, m, k);
    }
  }

  lemma InsertedOther(f: Family, n: Node, c: Node, k: nat, m: Node)
    requires Consistent(f) && n in f && c in f && !Attached(f[c]) && k <= |f[n].children| && m in f && m != n
    ensures m in Inserted(f, n, c, k) && Linked(Inserted(f, n, c, k), m)
  {
    hide Inserted;
    var s, g := f[n].children, Inserted(f, n, c, k);
    InsertedIs(f, n, c, k, m);
    assert k > 0 ==> ChildLinked(f, n, k - 1);
    assert k < |s| ==> ChildLinked(f, n, k);
    forall d | d in f && f[d].parent == m
      ensures d in g && g[d].parent == m && g[d].prev == f[d].prev && g[d].next == f[d].next
    {
      InsertedIs(f, n, c, k, d);
    }
    OtherList(f, g, m);
  }

  lemma InsertedLinked(f: Family, n: Node, c: Node, k: nat)
    requires Consistent(f) && n in f && c in f && !Attached(f[c]) && k <= |f[n].children|
    ensures n in Inserted(f, n, c, k) && Linked(Inserted(f, n, c, k), n)
  {
    hide Inserted, ChildLinked;
    var s, g := f[n].children, Inserted(f, n, c, k);
    InsertedIs(f, n, c, k, n);
    assert Linked(f, n);
    Unlisted(f, n, c);
    forall j: nat | j < |g[n].children| ensures ChildLinked(g, n, j) {
      if j < k {
        InsertedFront(f, n, c, k, j);
      } else if j == k {
        InsertedNew(f, n, c, k);
      } else {
        InsertedBack(f, n, c, k, j - 1);
      }
    }
  }

  lemma InsertedPlaced(f: Family, n: Node, c: Node, k: nat, m: Node)
    requires Consistent(f) && n in f && c in f && !Attached(f[c]) && k <= |f[n].children| && m in f
    ensures m in Inserted(f, n, c, k) && Placed(Inserted(f, n, c, k), m)
  {
    hide Inserted;
    var s, g := f[n].children, Inserted(f, n, c, k);
    assert Placed(f, m) && Linked(f, n);
    assert k > 0 ==> ChildLinked(f, n, k - 1);
    assert k < |s| ==> ChildLinked(f, n, k);
    InsertedIs(f, n, c, k, m);
    InsertedIs(f, n, c, k, n);
    if m == c {
      assert Spliced(s, k, c)[k] == c;
    } else if f[m].parent == n {
      var i: nat :| i < |s| && s[i] == m;
      assert Spliced(s, k, c)[if i < k then i else i + 1] == m;
    } else if f[m].parent != null {
      InsertedIs(f, n, c, k, f[m].parent);
    }
  }

  /** Inserting a node that is not attached keeps all lists consistent. */
  lemma InsertKeeps(f: Family, n: Node, c: Node, k: nat)
    requires Consistent(f) && n in f && c in f && !Attached(f[c]) && k <= |f[n].children|
    ensures Consistent(Inserted(f, n, c, k))
  {
    hide Linked, Placed;
    var g := Inserted(f, n, c, k);
    forall m | m in g ensures Linked(g, m) && Placed(g, m) {
      if m == n {
        InsertedLinked(f, n, c, k);
      } else {
        InsertedOther(f, n, c, k, m);
      }
      InsertedPlaced(f, n, c, k, m);
    }
  }

  // ----- parents form no cycle -----

  /** k parents up from m is a. */
  ghost predicate Above(f: Family, m: Node, a: Node, k: nat)
    requires m in f
    decreases k
  {
    if k == 0 then m == a
    else f[m].parent != null && f[m].parent in f && Above(f, f[m].parent, a, k - 1)
  }

  /** a is m or one of the nodes above it. */
  ghost predicate Within(f: Family, m: Node, a: Node)
    requires m in f
  {
    exists k: nat :: Above(f, m, a, k)
  }

  /** No node is above itself. */
  ghost predicate Acyclic(f: Family) {
    forall m, k: nat :: m in f && k > 0 ==> !Above(f, m, m, k)
  }

  lemma {:induction false} AboveJoins(f: Family, m: Node, a: Node, k: nat, b: Node, j: nat)
    requires m in f && a in f && Above(f, m, a, k) && Above(f, a, b, j)
    ensures Above(f, m, b, k + j)
    decreases k
  {
    if k > 0 {
      AboveJoins(f, f[m].parent, a, k - 1, b, j);
    }
  }

  /** g is f with c, which had no parent, below n. */
  ghost predicate Grafted(f: Family, g: Family, n: Node, c: Node) {
    && g.Keys == f.Keys && n in f && c in f && f[c].parent == null
    && forall m :: m in f ==> g[m].parent == if m == c then n else f[m].parent
  }

  lemma {:induction false} AboveKept(f: Family, g: Family, n: Node, c: Node, m: Node, k: nat)
    requires Grafted(f, g, n, c) && m in f && Above(f, m, c, k)
    ensures Above(g, m, c, k)
    decreases k
  {
    if k > 0 {
      AboveKept(f, g, n, c, f[m].parent, k - 1);
    }
  }

  lemma OneUp(g: Family, m: Node, n: Node, a: Node, k: nat)
    requires m in g && n in g && g[m].parent == n && Above(g, n, a, k)
    ensures Above(g, m, a, k + 1)
  {
  }

  lemma FirstUp(g: Family, m: Node, a: Node, k: nat)
    requires m in g
    ensures k == 0 ==> (Above(g, m, a, k) <==> m == a)
    ensures k > 0 && Above(g, m, a, k) ==>
      g[m].parent != null && g[m].parent in g && Above(g, g[m].parent, a, k - 1)
  {
  }

  /** A way up in g is one in f, or leads to c and from there to n. */
  lemma {:induction false} AboveSplits(f: Family, g: Family, n: Node, c: Node, m: Node, a: Node, k: nat)
    requires Grafted(f, g, n, c) && m in f && Above(g, m, a, k)
    ensures Above(f, m, a, k) || exists i: nat, j: nat :: i + j + 1 == k && Above(f, m, c, i) && Above(g, n, a, j)
    decreases k
  {
    hide Above;
    FirstUp(f, m, m, 0);
    FirstUp(g, m, a, k);
    if k > 0 {
      if m == c {
        assert 0 + (k - 1) + 1 == k && Above(f, m, c, 0) && Above(g, n, a, k - 1);
      } else {
        var p := f[m].parent;
        AboveSplits(f, g, n, c, p, a, k - 1);
        if Above(f, p, a, k - 1) {
          OneUp(f, m, p, a, k - 1);
        } else {
          var i: nat, j: nat :| i + j + 1 == k - 1 && Above(f, p, c, i) && Above(g, n, a, j);
          OneUp(f, m, p, c, i);
          assert (i + 1) + j + 1 == k && Above(f, m, c, i + 1) && Above(g, n, a, j);
          assert exists i: nat, j: nat :: i + j + 1 == k && Above(f, m, c, i) && Above(g, n, a, j);
        }
      }
    }
  }

  /** A node that had no parent closes a cycle exactly if its new parent is the node itself or below it. */
  lemma Reparented(f: Family, g: Family, n: Node, c: Node)
    requires Grafted(f, g, n, c)
    ensures Acyclic(f) ==> (Acyclic(g) <==> !Within(f, n, c))
  {
    hide Above;
    if Within(f, n, c) {
      var k: nat :| Above(f, n, c, k);
      AboveKept(f, g, n, c, n, k);
      OneUp(g, c, n, c, k);
    } else if Acyclic(f) {
      forall m, k: nat | m in g && k > 0 ensures !Above(g, m, m, k) {
        if Above(g, m, m, k) {
          NoWayBack(f, g, n, c, m, k);
        }
      }
    }
  }

  lemma NoWayBack(f: Family, g: Family, n: Node, c: Node, m: Node, k: nat)
    requires Grafted(f, g, n, c) && Acyclic(f) && !Within(f, n, c) && m in f && k > 0
    ensures !Above(g, m, m, k)
  {
    hide Above;
    if Above(g, m, m, k) {
      AboveSplits(f, g, n, c, m, m, k);
      var i: nat, j: nat :| i + j + 1 == k && Above(f, m, c, i) && Above(g, n, m, j);
      AboveSplits(f, g, n, c, n, m, j);
      AboveJoins(f, n, m, j, c, i);
    }
  }

  lemma {:induction false} AboveWas(f: Family, g: Family, m: Node, a: Node, k: nat)
    requires g.Keys == f.Keys && m in f && Above(g, m, a, k)
    requires forall d :: d in f ==> g[d].parent == null || g[d].parent == f[d].parent
    ensures Above(f, m, a, k)
    decreases k
  {
    if k > 0 {
      AboveWas(f, g, g[m].parent, a, k - 1);
    }
  }

  /** Removing a child closes no cycle. */
  lemma RemoveAcyclic(f: Family, n: Node, k: nat)
    requires n in f && k < |f[n].children| && Acyclic(f)
    ensures Acyclic(Removed(f, n, k))
  {
    hide Above;
    var g := Removed(f, n, k);
    forall m, j: nat | m in g && j > 0 ensures !Above(g, m, m, j) {
      if Above(g, m, m, j) {
        AboveWas(f, g, m, m, j);
      }
    }
  }

  // ----- a node is removed -----

  function RemovedLinks(x: Links, m: Node, n: Node, c: Node, prev: Node?, next: Node?): Links {
    Links(if m == c then null else x.parent,
          if m == n && x.first == c then next else x.first,
          if m == n && x.last == c then prev else x.last,
          if m == c then null else if m == next then prev else x.prev,
          if m == c then null else if m == prev then next else x.next,
          x.children)
  }

  function Without(s: seq<Node>, k: nat): (r: seq<Node>)
    requires k < |s|
    ensures |r| == |s| - 1
    ensures forall j :: 0 <= j < |r| ==> r[j] == if j < k then s[j] else s[j + 1]
  {
    s[..k] + s[k + 1..]
  }

  /** The child of n at position k is taken out. */
  ghost function Removed(f: Family, n: Node, k: nat): Family
    requires n in f && k < |f[n].children|
  {
    var s := f[n].children;
    map m | m in f ::
      var x := RemovedLinks(f[m], m, n, s[k], At(s, k - 1), At(s, k + 1));
      if m == n then x.(children := Without(s, k)) else x
  }

  lemma RemovedIs(f: Family, n: Node, k: nat, m: Node)
    requires n in f && k < |f[n].children| && m in f
    ensures var s, r := f[n].children, Removed(f, n, k);
      m in r && var x := RemovedLinks(f[m], m, n, s[k], At(s, k - 1), At(s, k + 1));
      r[m] == if m == n then x.(children := Without(s, k)) else x
  {
  }

  lemma RemovedFront(f: Family, n: Node, k: nat, j: nat)
    requires n in f && Linked(f, n) && j < k < |f[n].children|
    requires Removed(f, n, k)[n].children == Without(f[n].children, k)
    ensures ChildLinked(Removed(f, n, k), n, j)
  {
    hide Removed;
    assert ChildLinked(f, n, j);
    RemovedIs(f, n, k, f[n].children[j]);
  }

  lemma RemovedBack(f: Family, n: Node, k: nat, j: nat)
    requires n in f && Linked(f, n) && k < j < |f[n].children|
    requires Removed(f, n, k)[n].children == Without(f[n].children, k)
    ensures ChildLinked(Removed(f, n, k), n, j - 1)
  {
    hide Removed;
    assert ChildLinked(f, n, j);
    RemovedIs(f, n, k, f[n].children[j]);
  }

  lemma WithoutEnds(s: seq<Node>, k: nat)
    requires k < |s| && Distinct(s)
    ensures var r := Without(s, k);
      && Distinct(r) && s[k] !in r
      && At(r, 0) == (if k == 0 then At(s, 1) else At(s, 0))
      && At(r, |r| - 1) == (if k == |s| - 1 then At(s, k - 1) else At(s, |s| - 1))
  {
  }

  lemma RemovedLinked(f: Family, n: Node, k: nat)
    requires Consistent(f) && n in f && k < |f[n].children|
    ensures n in Removed(f, n, k) && Linked(Removed(f, n, k), n)
  {
    hide Removed, ChildLinked;
    var s, g := f[n].children, Removed(f, n, k);
    RemovedIs(f, n, k, n);
    assert Linked(f, n);
    WithoutEnds(s, k);
    forall j: nat | j < |g[n].children| ensures ChildLinked(g, n, j) {
      if j < k {
        RemovedFront(f, n, k, j);
      } else {
        RemovedBack(f, n, k, j + 1);
      }
    }
  }

  lemma RemovedOther(f: Family, n: Node, k: nat, m: Node)
    requires Consistent(f) && n in f && k < |f[n].children| && m in f && m != n
    ensures m in Removed(f, n, k) && Linked(Removed(f, n, k), m)
  {
    hide Removed;
    var s, g := f[n].children, Removed(f, n, k);
    RemovedIs(f, n, k, m);
    assert Linked(f, n) && ChildLinked(f, n, k);
    assert k > 0 ==> ChildLinked(f, n, k - 1);
    assert k + 1 < |s| ==> ChildLinked(f, n, k + 1);
    forall d | d in f && f[d].parent == m
      ensures d in g && g[d].parent == m && g[d].prev == f[d].prev && g[d].next == f[d].next
    {
      RemovedIs(f, n, k, d);
    }
    OtherList(f, g, m);
  }

  lemma RemovedPlaced(f: Family, n: Node, k: nat, m: Node)
    requires Consistent(f) && n in f && k < |f[n].children| && m in f
    ensures m in Removed(f, n, k) && Placed(Removed(f, n, k), m)
  {
    hide Removed, Distinct;
    var s, g := f[n].children, Removed(f, n, k);
    assert Placed(f, m) && Linked(f, n) && ChildLinked(f, n, k);
    assert k > 0 ==> ChildLinked(f, n, k - 1);
    assert k + 1 < |s| ==> ChildLinked(f, n, k + 1);
    RemovedIs(f, n, k, m);
    RemovedIs(f, n, k, n);
    if m != s[k] && f[m].parent == n {
      var i: nat :| i < |s| && s[i] == m;
      assert Without(s, k)[if i < k then i else i - 1] == m;
    } else if m != s[k] && f[m].parent != null {
      RemovedIs(f, n, k, f[m].parent);
    }
  }

  /** Removing a child keeps all lists consistent, and leaves it unattached. */
  lemma RemoveKeeps(f: Family, n: Node, k: nat)
    requires Consistent(f) && n in f && k < |f[n].children|
    ensures Consistent(Removed(f, n, k))
    ensures var c, g := f[n].children[k], Removed(f, n, k); c in g && !Attached(g[c])
  {
    hide Linked, Placed;
    var g := Removed(f, n, k);
    forall m | m in g ensures Linked(g, m) && Placed(g, m) {
      if m == n {
        RemovedLinked(f, n, k);
      } else {
        RemovedOther(f, n, k, m);
      }
      RemovedPlaced(f, n, k, m);
    }
    ChildIsIn(f, n, k);
    RemovedIs(f, n, k, f[n].children[k]);
  }

  lemma ChildIsIn(f: Family, n: Node, k: nat)
    requires Consistent(f) && n in f && k < |f[n].children|
    ensures f[n].children[k] in f && f[f[n].children[k]].parent == n
  {
    assert Linked(f, n) && ChildLinked(f, n, k);
  }

  lemma RemovedDomain(f: Family, n: Node, k: nat)
    requires n in f && k < |f[n].children|
    ensures Removed(f, n, k).Keys == f.Keys
  {
  }

  lemma Beside(s: seq<Node>, k: nat)
    requires Distinct(s) && k < |s|
    ensures var prev, next := At(s, k - 1), At(s, k + 1);
      && prev != s[k] && next != s[k] && (prev != null ==> prev in s && prev != next) && (next != null ==> next in s)
  {
  }

  /** The list of n holds nodes of the family whose parent is n. */
  lemma ListIsIn(f: Family, n: Node, c: Node)
    requires Consistent(f) && n in f && c in f
    ensures Distinct(f[n].children) && forall d :: d in f[n].children ==> d in f
    ensures c in f[n].children ==> f[c].parent == n
    ensures f[n].first == At(f[n].children, 0) && f[n].last == At(f[n].children, |f[n].children| - 1)
  {
    assert Linked(f, n);
    forall d | d in f[n].children ensures d in f && f[d].parent == n {
      var i: nat :| i < |f[n].children| && f[n].children[i] == d;
      assert ChildLinked(f, n, i);
    }
  }

  /** A node whose parent is n stands in n's list between its neighbours. */
  lemma ChildIs(f: Family, n: Node, c: Node)
    requires Consistent(f) && n in f && c in f && f[c].parent == n
    ensures var s, k := f[n].children, Position(f[n].children, c);
      && k < |s| && Distinct(s) && (forall d :: d in s ==> d in f)
      && f[c].prev == At(s, k - 1) && f[c].next == At(s, k + 1)
  {
    ListIsIn(f, n, c);
    assert Placed(f, c) && Linked(f, n);
    assert ChildLinked(f, n, Position(f[n].children, c));
  }

  lemma InsertedLists(f: Family, n: Node, c: Node, k: nat)
    requires n in f && k <= |f[n].children|
    ensures forall m :: m in f ==>
      && m in Inserted(f, n, c, k)
      && Inserted(f, n, c, k)[m].children == if m == n then Spliced(f[n].children, k, c) else f[m].children
  {
    hide Inserted;
    forall m | m in f ensures m in Inserted(f, n, c, k)
      && Inserted(f, n, c, k)[m].children == if m == n then Spliced(f[n].children, k, c) else f[m].children
    {
      InsertedIs(f, n, c, k, m);
    }
  }

  lemma RemovedLists(f: Family, n: Node, k: nat)
    requires n in f && k < |f[n].children|
    ensures forall m :: m in f ==>
      && m in Removed(f, n, k)
      && Removed(f, n, k)[m].children == if m == n then Without(f[n].children, k) else f[m].children
  {
    hide Removed;
    forall m | m in f ensures m in Removed(f, n, k)
      && Removed(f, n, k)[m].children == if m == n then Without(f[n].children, k) else f[m].children
    {
      RemovedIs(f, n, k, m);
    }
  }

  /** Removing a node that has just been inserted restores every pointer. */
  lemma RemoveUndoesInsert(f: Family, n: Node, c: Node, k: nat)
    requires Consistent(f) && n in f && c in f && !Attached(f[c]) && k <= |f[n].children|
    ensures n in Inserted(f, n, c, k) && k < |Inserted(f, n, c, k)[n].children|
    ensures Removed(Inserted(f, n, c, k), n, k) == f
  {
    hide Inserted, Removed, Consistent;
    var g := Inserted(f, n, c, k);
    InsertedIs(f, n, c, k, n);
    InsertedDomain(f, n, c, k);
    RemovedDomain(g, n, k);
    forall m | m in f ensures Removed(g, n, k)[m] == f[m] {
      RestoredAt(f, n, c, k, m);
    }
  }

  lemma RestoredAt(f: Family, n: Node, c: Node, k: nat, m: Node)
    requires Consistent(f) && n in f && c in f && !Attached(f[c]) && k <= |f[n].children| && m in f
    requires n in Inserted(f, n, c, k) && k < |Inserted(f, n, c, k)[n].children|
    ensures m in Removed(Inserted(f, n, c, k), n, k) && Removed(Inserted(f, n, c, k), n, k)[m] == f[m]
  {
    hide Inserted, Removed, Consistent, At, Spliced, Without, Distinct;
    var s, g := f[n].children, Inserted(f, n, c, k);
    InsertedIs(f, n, c, k, n);
    InsertedIs(f, n, c, k, m);
    RemovedIs(g, n, k, m);
    ListIsIn(f, n, c);
    Neighbours(s, k, c);
    NeighboursAre(f, n, k);
    SplicedEnds(s, k, c);
    LinksRestored(f[m], m, n, c, At(s, k - 1), At(s, k));
  }

  lemma SplicedEnds(s: seq<Node>, k: nat, c: Node)
    requires k <= |s| && c !in s
    ensures var r := Spliced(s, k, c);
      r[k] == c && Without(r, k) == s && At(r, k - 1) == At(s, k - 1) && At(r, k + 1) == At(s, k)
    ensures At(s, 0) != c && At(s, |s| - 1) != c
    ensures (k == 0 ==> At(s, k - 1) == null) && (k == |s| ==> At(s, k) == null)
    ensures k > 0 ==> At(s, k - 1) == s[k - 1]
    ensures k < |s| ==> At(s, k) == s[k]
  {
  }

  lemma LinksRestored(x: Links, m: Node, n: Node, c: Node, p: Node?, q: Node?)
    requires p != c && q != c && (p != null ==> p != q)
    requires m == c ==> !Attached(x)
    requires m == p ==> x.next == q
    requires m == q ==> x.prev == p
    requires m == n ==> (if p == null then x.first == q else x.first != c)
    requires m == n ==> (if q == null then x.last == p else x.last != c)
    ensures RemovedLinks(InsertedLinks(x, m, n, c, p, q), m, n, c, p, q) == x
  {
  }

  /** What the neighbours of a gap at position k point at. */
  lemma NeighboursAre(f: Family, n: Node, k: nat)
    requires Consistent(f) && n in f && k <= |f[n].children|
    ensures var s := f[n].children;
      && (k > 0 ==> s[k - 1] in f && f[s[k - 1]].next == At(s, k))
      && (k < |s| ==> s[k] in f && f[s[k]].prev == At(s, k - 1))
      && (k == 0 ==> f[n].first == At(s, k)) && (k == |s| ==> f[n].last == At(s, k - 1))
  {
    assert Linked(f, n);
    if k > 0 {
      assert ChildLinked(f, n, k - 1);
    }
    if k < |f[n].children| {
      assert ChildLinked(f, n, k);
    }
  }

  // ----- reparentChildren -----

  /** The body of the loop in reparentChildren. */
  method MoveFirst(dst: Node, src: Node, child: Node, ghost all: set<Node>)
    requires Consistent(Seen(all)) && dst in all && src in all
    requires src.children != [] && child == src.children[0] && child in all && Position(src.children, child) == 0
    modifies all
    ensures Consistent(Seen(all)) && Seen(all) == Round(old(Seen(all)), dst, src)
  {
    hide Consistent, Inserted, Removed, Position;
    ghost var f := Seen(all);
    var panics := src.RemoveChild(child, all);
    RemovedLists(f, src, 0);
    RemovedDomain(f, src, 0);
    ghost var g := Seen(all);
    assert g[src].children == src.children && g[dst].children == dst.children;
    panics := dst.AppendChild(child, all);
  }

  /** One round of the loop: src's first child becomes dst's last. */
  ghost function Round(f: Family, dst: Node, src: Node): (g: Family)
    requires dst in f && src in f && f[src].children != []
  {
    RemovedLists(f, src, 0);
    var g := Removed(f, src, 0);
    Inserted(g, dst, f[src].children[0], |g[dst].children|)
  }

  lemma RoundLists(f: Family, dst: Node, src: Node)
    requires Consistent(f) && dst in f && src in f && f[src].children != []
    ensures var g, s := Round(f, dst, src), f[src].children;
      && Consistent(g) && g.Keys == f.Keys
      && (dst != src ==> g[src].children == s[1..] && g[dst].children == f[dst].children + [s[0]])
      && (dst == src ==> g[src].children == s[1..] + [s[0]])
      && forall m :: m in f && m != dst && m != src ==> g[m].children == f[m].children
  {
    hide Consistent, Inserted, Removed;
    var g, c := Removed(f, src, 0), f[src].children[0];
    RemovedLists(f, src, 0);
    RemovedDomain(f, src, 0);
    RemoveKeeps(f, src, 0);
    InsertedLists(g, dst, c, |g[dst].children|);
    InsertedDomain(g, dst, c, |g[dst].children|);
    InsertKeeps(g, dst, c, |g[dst].children|);
  }

  /** The loop ends after at most n rounds: its test is that there is no first child. */
  ghost predicate Ends(f: Family, dst: Node, src: Node, n: nat)
    requires Consistent(f) && dst in f && src in f
    decreases n
  {
    if f[src].first == null then true
    else
      FirstOf(f, src);
      RoundLists(f, dst, src);
      n > 0 && Ends(Round(f, dst, src), dst, src, n - 1)
  }

  lemma FirstOf(f: Family, n: Node)
    requires Consistent(f) && n in f
    ensures f[n].first == null <==> f[n].children == []
  {
    assert Linked(f, n);
  }

  lemma {:induction false} EndsInTime(f: Family, dst: Node, src: Node)
    requires Consistent(f) && dst in f && src in f && dst != src
    ensures Ends(f, dst, src, |f[src].children|)
    decreases |f[src].children|
  {
    hide Consistent, Round;
    FirstOf(f, src);
    if f[src].children != [] {
      RoundLists(f, dst, src);
      EndsInTime(Round(f, dst, src), dst, src);
    }
  }

  lemma {:induction false} NeverEnds(f: Family, n: Node, rounds: nat)
    requires Consistent(f) && n in f && f[n].children != []
    ensures !Ends(f, n, n, rounds)
    decreases rounds
  {
    hide Consistent, Round;
    FirstOf(f, n);
    RoundLists(f, n, n);
    if rounds > 0 {
      NeverEnds(Round(f, n, n), n, rounds - 1);
    }
  }

  /** reparentChildren returns exactly if its nodes are different or there is nothing to move: with the same node twice
      each round moves the first child to the end. */
  lemma ReturnsExactly(f: Family, dst: Node, src: Node)
    requires Consistent(f) && dst in f && src in f
    ensures (exists n :: Ends(f, dst, src, n)) <==> dst != src || f[src].children == []
  {
    hide Consistent;
    FirstOf(f, src);
    if dst != src {
      EndsInTime(f, dst, src);
    } else if f[src].children == [] {
      assert Ends(f, dst, src, 0);
    } else {
      forall n: nat ensures !Ends(f, dst, src, n) {
        NeverEnds(f, src, n);
      }
    }
  }

  /** reparentChildren, where it returns at all. */
  method ReparentChildren(dst: Node, src: Node, ghost all: set<Node>)
    requires Consistent(Seen(all)) && dst in all && src in all
    requires dst != src || src.children == []
    modifies all
    ensures Consistent(Seen(all)) && src.children == [] && dst.children == old(dst.children) + old(src.children)
    ensures forall m :: m in all && m != dst && m != src ==> m.children == old(m.children)
  {
    hide Consistent, Position, Seen, Round;
    while true
      invariant Consistent(Seen(all)) && dst.children + src.children == old(dst.children) + old(src.children)
      invariant forall m :: m in all && m != dst && m != src ==> m.children == old(m.children)
      invariant dst != src || src.children == []
      decreases |src.children|
    {
      var child := src.firstChild;
      FirstIs(all, src);
      if child == null {
        break;
      }
      ghost var d, s, f := dst.children, src.children, Seen(all);
      forall m | m in all ensures f[m].children == m.children {
        ListSeen(all, m);
      }
      MoveFirst(dst, src, child, all);
      RoundLists(f, dst, src);
      forall m | m in all ensures Seen(all)[m].children == m.children {
        ListSeen(all, m);
      }
      assert (d + [child]) + s[1..] == d + s;
    }
  }

  lemma ListSeen(all: set<Node>, m: Node)
    requires m in all
    ensures Seen(all)[m].children == m.children
  {
  }

  /** The first child, if there is one, is in the list's first place. */
  lemma FirstIs(all: set<Node>, n: Node)
    requires Consistent(Seen(all)) && n in all
    ensures var s := n.children;
      if s == [] then n.firstChild == null else n.firstChild == s[0] && s[0] in all && Position(s, s[0]) == 0
  {
    ListIsIn(Seen(all), n, n);
  }

  // ----- the stack of open elements -----

  /** The position of the topmost n, or -1. */
  function Topmost(s: seq<Node?>, n: Node): (i: int)
    ensures -1 <= i < |s| && (i >= 0 ==> s[i] == n) && forall j :: i < j < |s| ==> s[j] != n
  {
    if s == [] then -1 else if s[|s| - 1] == n then |s| - 1 else Topmost(s[..|s| - 1], n)
  }

  class NodeStack {
    var nodes: seq<Node?>

    constructor ()
      ensures nodes == []
    {
      nodes := [];
    }

    method Pop() returns (n: Node?)
      requires nodes != []
      modifies this
      ensures old(nodes) == nodes + [n]
    {
      var i := |nodes|;
      n := nodes[i - 1];
      nodes := nodes[..i - 1];
    }

    method Top() returns (n: Node?)
      ensures n == if nodes == [] then null else nodes[|nodes| - 1]
    {
      if |nodes| > 0 {
        return nodes[|nodes| - 1];
      }
      return null;
    }

    method Index(n: Node) returns (i: int)
      ensures i == Topmost(nodes, n)
    {
      i := |nodes| - 1;
      while i >= 0
        invariant -1 <= i < |nodes|
        invariant Topmost(nodes[..i + 1], n) == Topmost(nodes, n)
      {
        assert nodes[..i + 1][..i] == nodes[..i];
        if nodes[i] == n {
          return i;
        }
        i := i - 1;
      }
    }

    method Insert(i: nat, n: Node)
      requires i <= |nodes|
      modifies this
      ensures nodes == PutIn(old(nodes), i, n)
    {
      nodes := nodes + [null];
      nodes := nodes[..i + 1] + nodes[i..|nodes| - 1];
      nodes := nodes[i := n];
    }

    /** Removes the topmost n; the rest keeps its order. */
    method Remove(n: Node)
      modifies this
      ensures nodes == TakenOut(old(nodes), n)
    {
      var i := Index(n);
      if i == -1 {
        return;
      }
      nodes := nodes[..i] + nodes[i + 1..] + [nodes[|nodes| - 1]];
      var j := |nodes| - 1;
      nodes := nodes[j := null];
      nodes := nodes[..j];
    }
  }

  function PutIn(s: seq<Node?>, i: nat, n: Node): (r: seq<Node?>)
    requires i <= |s|
    ensures |r| == |s| + 1
    ensures forall j :: 0 <= j < |r| ==> r[j] == if j < i then s[j] else if j == i then n else s[j - 1]
  {
    s[..i] + [n] + s[i..]
  }

  function TakenOut(s: seq<Node?>, n: Node): seq<Node?> {
    var i := Topmost(s, n);
    if i == -1 then s else s[..i] + s[i + 1..]
  }

  lemma TopmostPutIn(s: seq<Node?>, i: nat, n: Node)
    requires i <= |s|
    ensures Topmost(PutIn(s, i, n), n) == if Topmost(s, n) < i then i else Topmost(s, n) + 1
  {
    var r, p := PutIn(s, i, n), Topmost(s, n);
    var k := Topmost(r, n);
    assert r[i] == n;
    assert p >= i ==> r[p + 1] == n;
    if k > i {
      assert s[k - 1] == n;
    }
  }

  /** The node at j of a stack in which n has been inserted at i and whose topmost n, at p + 1 by then, is gone. */
  function Shifted(s: seq<Node?>, i: nat, n: Node, p: int, j: nat): Node?
    requires j < |s|
  {
    if j < i || p < j then s[j] else if j == i then n else s[j - 1]
  }

  lemma TakenOutAgain(s: seq<Node?>, i: nat, n: Node)
    requires i <= |s|
    ensures var t := TakenOut(PutIn(s, i, n), n);
      |t| == |s| && forall j: nat :: j < |s| ==> t[j] == Shifted(s, i, n, Topmost(s, n), j)
  {
    hide Topmost;
    var r, k := PutIn(s, i, n), Topmost(PutIn(s, i, n), n);
    TopmostPutIn(s, i, n);
    assert TakenOut(r, n) == r[..k] + r[k + 1..];
  }

  /** Removing what has just been inserted restores the stack exactly if nothing else stands between the place of the
      insertion and the topmost occurrence the node had already. */
  lemma StackRoundTrip(s: seq<Node?>, i: nat, n: Node)
    requires i <= |s|
    ensures TakenOut(PutIn(s, i, n), n) == s <==> forall j :: i <= j <= Topmost(s, n) ==> s[j] == n
  {
    hide Topmost, PutIn, TakenOut;
    var t, p := TakenOut(PutIn(s, i, n), n), Topmost(s, n);
    TakenOutAgain(s, i, n);
    if t == s {
      forall j | i <= j <= p ensures s[j] == n {
        AllTheSame(s, i, n, p, j);
      }
    }
    if forall j :: i <= j <= p ==> s[j] == n {
      forall j: nat | j < |s| ensures t[j] == s[j] {
        assert t[j] == Shifted(s, i, n, p, j);
      }
      assert t == s;
    }
  }

  lemma {:induction false} AllTheSame(s: seq<Node?>, i: nat, n: Node, p: int, j: nat)
    requires i <= j <= p < |s| && forall m: nat :: m < |s| ==> s[m] == Shifted(s, i, n, p, m)
    ensures s[j] == n
    decreases j
  {
    assert s[j] == Shifted(s, i, n, p, j);
    if j > i {
      AllTheSame(s, i, n, p, j - 1);
    }
  }
}
