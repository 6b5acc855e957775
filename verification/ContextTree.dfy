/** The contexts of context/context.go as a tree that only grows: who was derived from whom, and what never changes. */
module ContextTree {
  import opened Options

  datatype Kind = CancelCtx | TimerCtx(deadline: int) | ValueCtx(key: int, val: int)

  datatype Error = Canceled | DeadlineExceeded

  /** A context; one without a parent was derived from Background or TODO. */
  datatype Shape = Shape(parent: Option<nat>, kind: Kind, creator: nat)

  /** Contexts are numbered in the order of their creation. */
  ghost predicate Grown(tree: seq<Shape>) {
    forall c :: 0 <= c < |tree| && tree[c].parent.Some? ==> tree[c].parent.value < c
  }

  ghost predicate In(tree: seq<Shape>, c: Option<nat>) {
    c.Some? ==> c.value < |tree|
  }

  predicate Cancellable(tree: seq<Shape>, c: nat)
    requires c < |tree|
  {
    !tree[c].kind.ValueCtx?
  }

  /** parentCancelCtx: the nearest context that can be canceled. */
  function Nearest(tree: seq<Shape>, c: Option<nat>): (p: Option<nat>)
    requires Grown(tree) && In(tree, c)
    ensures In(tree, p) && (p.Some? ==> c.Some? && p.value <= c.value && Cancellable(tree, p.value))
    decreases if c.Some? then c.value + 1 else 0
  {
    if c.None? then None
    else if Cancellable(tree, c.value) then c
    else Nearest(tree, tree[c.value].parent)
  }

  /** Whose cancellation is passed on to c. */
  function Above(tree: seq<Shape>, c: nat): (p: Option<nat>)
    requires Grown(tree) && c < |tree|
    ensures p.Some? ==> p.value < c && Cancellable(tree, p.value)
  {
    Nearest(tree, tree[c].parent)
  }

  /** Whether c was derived from a, in one or more steps. */
  ghost predicate Descends(tree: seq<Shape>, c: nat, a: nat)
    requires Grown(tree) && c < |tree|
    decreases c
  {
    tree[c].parent.Some? && (tree[c].parent.value == a || Descends(tree, tree[c].parent.value, a))
  }

  lemma {:induction false} DescendsFurther(tree: seq<Shape>, c: nat, b: nat, a: nat)
    requires Grown(tree) && c < |tree| && b < |tree| && Descends(tree, c, b) && Descends(tree, b, a)
    ensures Descends(tree, c, a)
    decreases c
  {
    if tree[c].parent.value != b {
      DescendsFurther(tree, tree[c].parent.value, b, a);
    }
  }

  lemma {:induction false} NearestIsAbove(tree: seq<Shape>, c: nat, p: Option<nat>)
    requires Grown(tree) && c < |tree| && In(tree, p) && p.Some? && (p.value == c || Descends(tree, c, p.value))
    requires Nearest(tree, p).Some?
    ensures Nearest(tree, p).value == c || Descends(tree, c, Nearest(tree, p).value)
    decreases p.value
  {
    if !Cancellable(tree, p.value) {
      var q := tree[p.value].parent;
      if p.value != c {
        assert Descends(tree, p.value, q.value);
        DescendsFurther(tree, c, p.value, q.value);
      }
      NearestIsAbove(tree, c, q);
    }
  }

  lemma AboveIsAncestor(tree: seq<Shape>, c: nat)
    requires Grown(tree) && c < |tree| && Above(tree, c).Some?
    ensures Descends(tree, c, Above(tree, c).value)
  {
    NearestIsAbove(tree, c, tree[c].parent);
  }

  /** A context that can be canceled and was derived from a is reached from a over contexts that can be canceled. */
  lemma {:induction false} AboveReaches(tree: seq<Shape>, c: nat, a: nat)
    requires Grown(tree) && c < |tree| && a < |tree| && Cancellable(tree, a) && Descends(tree, c, a)
    ensures Above(tree, c).Some? && (Above(tree, c).value == a || Descends(tree, Above(tree, c).value, a))
    decreases c
  {
    var p := tree[c].parent.value;
    if p != a && !Cancellable(tree, p) {
      AboveReaches(tree, p, a);
    }
  }

  // ----- deadlines -----

  /** Deadline. */
  function Deadline(tree: seq<Shape>, c: Option<nat>): Option<int>
    requires Grown(tree) && In(tree, c)
    decreases if c.Some? then c.value + 1 else 0
  {
    if c.None? then None
    else if tree[c.value].kind.TimerCtx? then Some(tree[c.value].kind.deadline)
    else Deadline(tree, tree[c.value].parent)
  }

  ghost predicate NoLater(a: Option<int>, b: Option<int>) {
    b.Some? ==> a.Some? && a.value <= b.value
  }

  /** No timer is set beyond the deadline of the context it was derived from. */
  ghost predicate Timely(tree: seq<Shape>)
    requires Grown(tree)
  {
    forall c :: 0 <= c < |tree| && tree[c].kind.TimerCtx? ==>
      NoLater(Some(tree[c].kind.deadline), Deadline(tree, tree[c].parent))
  }

  /** Deadlines never get later further down. */
  lemma {:induction false} DeadlinesShrink(tree: seq<Shape>, c: nat, a: nat)
    requires Grown(tree) && Timely(tree) && c < |tree| && a < |tree| && Descends(tree, c, a)
    ensures NoLater(Deadline(tree, Some(c)), Deadline(tree, Some(a)))
    decreases c
  {
    var p := tree[c].parent.value;
    assert NoLater(Deadline(tree, Some(c)), Deadline(tree, Some(p)));
    if p != a {
      DeadlinesShrink(tree, p, a);
    }
  }

  // ----- values -----

  /** Value. */
  function Value(tree: seq<Shape>, c: Option<nat>, key: int): Option<int>
    requires Grown(tree) && In(tree, c)
    decreases if c.Some? then c.value + 1 else 0
  {
    if c.None? then None
    else if tree[c.value].kind.ValueCtx? && tree[c.value].kind.key == key then Some(tree[c.value].kind.val)
    else Value(tree, tree[c.value].parent, key)
  }

  // ----- growing -----

  lemma {:induction false} GrowKeeps(tree: seq<Shape>, n: Shape, c: Option<nat>)
    requires Grown(tree) && Grown(tree + [n]) && In(tree, c)
    ensures Nearest(tree + [n], c) == Nearest(tree, c)
    ensures Deadline(tree + [n], c) == Deadline(tree, c)
    ensures forall key :: Value(tree + [n], c, key) == Value(tree, c, key)
    decreases if c.Some? then c.value + 1 else 0
  {
    if c.Some? {
      GrowKeeps(tree, n, tree[c.value].parent);
      assert (tree + [n])[c.value] == tree[c.value];
      forall key ensures Value(tree + [n], c, key) == Value(tree, c, key) {
        assert Value(tree + [n], tree[c.value].parent, key) == Value(tree, tree[c.value].parent, key);
      }
    }
  }
}
