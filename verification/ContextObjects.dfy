/** The objects of context/context.go and what one call does to all of them while no other call is in progress. */
module ContextObjects {
  import opened Options
  import opened ContextTree

  class Context {
    const parent: Context?
    const kind: Kind
    /** How many contexts this one was derived through. */
    ghost const depth: nat
    var err: Option<Error>
    var closed: bool
    var children: set<Context>
    var timer: bool

    constructor (parent: Context?, kind: Kind)
      ensures this.parent == parent && this.kind == kind && depth == Depth(parent)
      ensures Now() == Fields(None, false, {}, false)
    {
      this.parent, this.kind, depth := parent, kind, Depth(parent);
      err, closed, children, timer := None, false, {}, false;
    }

    ghost function Now(): Fields
      reads this
    {
      Fields(err, closed, children, timer)
    }

    /** parentCancelCtx(c.Context) */
    method ParentCancelCtx(ghost all: set<Context>) returns (p: Context?)
      requires Formed(all) && this in all
      ensures p == Over(this) && (p != null ==> p in all)
    {
      var c: Context := this;
      while true
        invariant c in all && (c == this || !CanCancel(c)) && Over(c) == Over(this)
        decreases c.depth
      {
        if c.parent == null {
          return null;
        }
        if CanCancel(c.parent) {
          return c.parent;
        }
        c := c.parent;
      }
    }

    /** removeChild(c.Context, c) */
    method RemoveChild(ghost all: set<Context>)
      requires Formed(all) && this in all
      modifies all`children
      ensures Seen(all) == Dropped(old(Seen(all)), this)
    {
      var p := ParentCancelCtx(all);
      if p != null {
        p.children := p.children - {this};
      }
    }

    /** The loop of cancelCtx.cancel over the children. */
    method CancelChildren(error: Error, ghost f: Snapshot, ghost x: Fields, ghost all: set<Context>, ghost height: nat)
      requires Formed(all) && this in all && f.Keys == all && (forall c :: c in all ==> c.depth <= height)
      requires Seen(all) == f[this := x] && children == f[this].children
      requires forall d :: d in children ==> d in all && CanCancel(d) && Over(d) == this && GoodUnder(f, d)
      modifies all
      ensures Seen(all) == AfterCancels(f, f[this].children, error)[this := x]
      decreases height - depth, 0
    {
      hide AfterCancel, AfterCancels, Good, GoodUnder, Whole, Under, Seen;
      var todo := children;
      ghost var done: set<Context> := {};
      NothingCanceled(f, error);
      while todo != {}
        invariant done + todo == f[this].children && done !! todo
        invariant Seen(all) == AfterCancels(f, done, error)[this := x]
        decreases todo
      {
        var d :| d in todo;
        ghost var g := AfterCancels(f, done, error);
        StillGood(f, this, done, d, error);
        Elsewhere(g, this, x, d, error);
        FormedWhole(all, g[this := x]);
        d.Cancel(false, error, all, height);
        CanceledNext(f, done, d, error);
        todo := todo - {d};
        done := done + {d};
      }
      assert done == f[this].children;
    }

    /** The first call of cancelCtx.cancel, but for the last step. */
    method CancelFirst(error: Error, ghost all: set<Context>, ghost height: nat)
      requires Formed(all) && this in all && CanCancel(this) && GoodUnder(Seen(all), this) && err.None?
      requires forall c :: c in all ==> c.depth <= height
      modifies all
      ensures Seen(all) ==
        AfterCancel(old(Seen(all)), this, error)[this := Fields(Some(error), true, {}, old(timer))]
      decreases height - depth, 1
    {
      ghost var f := Seen(all);
      assert f[this] == Now();
      hide AfterCancel, AfterCancels, Good, GoodUnder, Whole, Under, Over, Formed, Seen;
      FormedWhole(all, f);
      ChildrenGood(f, this);
      MarkCanceled(error, all);
      assert children == f[this].children;
      ghost var x := Fields(Some(error), true, f[this].children, f[this].timer);
      CancelChildren(error, f, x, all, height);
      CanceledIs(f, this, error);
      SeenHere(all);
      ClearChildren(all);
      ghost var g, y := AfterCancels(f, f[this].children, error), x.(children := {});
      UpdatedTwice(g, this, x, y);
      UpdatedTwice(g, this, Fields(Some(error), true, {}, false), y);
    }

    /** cancelCtx.cancel, but for the last step. */
    method CancelCore(error: Error, ghost all: set<Context>, ghost height: nat) returns (first: bool)
      requires Formed(all) && this in all && CanCancel(this) && GoodUnder(Seen(all), this)
      requires forall c :: c in all ==> c.depth <= height
      modifies all
      ensures first == old(err).None?
      ensures var f := old(Seen(all));
        Seen(all) ==
          if first then AfterCancel(f, this, error)[this := Fields(Some(error), true, {}, f[this].timer)] else f
      decreases height - depth, 2
    {
      hide AfterCancel, GoodUnder, Formed;
      if err.Some? {
        return false;
      }
      CancelFirst(error, all, height);
      return true;
    }

    lemma SeenHere(all: set<Context>)
      requires this in all
      ensures Seen(all)[this] == Now()
    {
    }

    method ClearChildren(ghost all: set<Context>)
      requires this in all
      modifies `children
      ensures Seen(all) == old(Seen(all))[this := old(Now()).(children := {})]
    {
      children := {};
    }

    /** The head of cancelCtx.cancel. */
    method MarkCanceled(error: Error, ghost all: set<Context>)
      requires this in all
      modifies `err, `closed
      ensures Seen(all) == old(Seen(all))[this := old(Now()).(err := Some(error), closed := true)]
    {
      err := Some(error);
      closed := true;
    }

    /** The end of timerCtx.cancel. */
    method StopTimer(ghost all: set<Context>)
      requires this in all
      modifies `timer
      ensures Seen(all) == old(Seen(all))[this := old(Now()).(timer := false)]
    {
      if timer {
        timer := false;
      }
    }

    /** cancelCtx.cancel or timerCtx.cancel, of the kind of context that this is. */
    method Cancel(removeFromParent: bool, error: Error, ghost all: set<Context>, ghost height: nat)
      requires Formed(all) && this in all && CanCancel(this) && GoodUnder(Seen(all), this)
      requires forall c :: c in all ==> c.depth <= height
      requires removeFromParent ==> AllGood(Seen(all))
      modifies all
      ensures var g := AfterCancel(old(Seen(all)), this, error);
        Seen(all) == if removeFromParent then Dropped(g, this) else g
      decreases height - depth, 3
    {
      hide AfterCancel, AfterCancels, Good, GoodUnder, AllGood, Whole, Under, Over, Formed, Dropped;
      ghost var f := Seen(all);
      FormedWhole(all, f);
      ItselfGood(f, this, error);
      var first := CancelCore(error, all, height);
      if !first {
        CanceledAgain(f, this, error);
      }
      ghost var g := Seen(all);
      if kind.TimerCtx? {
        if removeFromParent {
          RemoveChild(all);
          DropThenStop(g, this);
        }
        StopTimer(all);
        StopIs(f, g, this, error, first);
      } else if removeFromParent && first {
        assert g == AfterCancel(f, this, error);
        RemoveChild(all);
      } else if removeFromParent {
        CancelGood(f, this, error);
      }
    }
  }

  ghost function Depth(parent: Context?): nat {
    if parent == null then 0 else parent.depth + 1
  }

  datatype Fields = Fields(err: Option<Error>, closed: bool, children: set<Context>, timer: bool)

  type Snapshot = map<Context, Fields>

  ghost function Seen(all: set<Context>): (f: Snapshot)
    reads all
    ensures f.Keys == all
  {
    map c | c in all :: c.Now()
  }

  predicate CanCancel(c: Context) {
    !c.kind.ValueCtx?
  }

  // ----- who is above whom -----

  /** parentCancelCtx, of a context's parent. */
  ghost function Over(c: Context): (p: Context?)
    ensures p != null ==> CanCancel(p) && p.depth < c.depth
    decreases c.depth
  {
    if c.parent == null || c.parent.depth >= c.depth then null
    else if CanCancel(c.parent) then c.parent
    else Over(c.parent)
  }

  /** c is a, or a's cancellation is passed on to it. */
  ghost predicate Under(c: Context, a: Context)
    decreases c.depth
  {
    c == a || (Over(c) != null && Under(Over(c), a))
  }

  lemma {:induction false} UnderIsDeeper(c: Context, a: Context)
    requires Under(c, a) && c != a
    ensures a.depth < c.depth
    decreases c.depth
  {
    if Over(c) != a {
      UnderIsDeeper(Over(c), a);
    }
  }

  lemma {:induction false} UnderTransitive(c: Context, b: Context, a: Context)
    requires Under(c, b) && Under(b, a)
    ensures Under(c, a)
    decreases c.depth
  {
    if c != b {
      UnderTransitive(Over(c), b, a);
    }
  }

  /** The trees below two contexts with the same parent have nothing in common. */
  lemma {:induction false} Apart(n: Context, c: Context, d: Context)
    requires Under(n, c) && Under(n, d) && Over(c) == Over(d) && Over(c) != null
    ensures c == d
    decreases n.depth
  {
    if n == c && n != d {
      NoDeeper(Over(d), d);
    } else if n == d && n != c {
      NoDeeper(Over(c), c);
    } else if n != c {
      Apart(Over(n), c, d);
    }
  }

  lemma NoDeeper(p: Context, d: Context)
    requires Under(p, d)
    ensures d.depth <= p.depth
  {
    if p != d {
      UnderIsDeeper(p, d);
    }
  }

  /** The child of a through which a's cancellation reaches n. */
  ghost function Through(n: Context, a: Context): (d: Context)
    requires Under(n, a) && n != a
    ensures Over(d) == a && Under(n, d)
    decreases n.depth
  {
    if Over(n) == a then n
    else
      UnderTransitive(n, Over(n), Through(Over(n), a));
      Through(Over(n), a)
  }

  // ----- what holds between calls -----

  /** The error and the channel agree; a canceled context has passed its cancellation on, and any other has exactly the
      contexts that are not canceled as its children. */
  ghost predicate Good(f: Snapshot, c: Context)
    requires c in f
  {
    && (f[c].closed <==> f[c].err.Some?) && (f[c].timer ==> c.kind.TimerCtx? && f[c].err.None?)
    && if f[c].err.Some?
       then f[c].children == {} && forall d :: d in f && CanCancel(d) && Over(d) == c ==> f[d].err.Some?
       else f[c].children == set d | d in f && CanCancel(d) && Over(d) == c && f[d].err.None?
  }

  /** The contexts above the ones there are are there, too. */
  ghost predicate Whole(f: Snapshot) {
    forall c :: c in f && Over(c) != null ==> Over(c) in f
  }

  ghost predicate GoodUnder(f: Snapshot, a: Context) {
    forall c :: c in f && CanCancel(c) && Under(c, a) ==> Good(f, c)
  }

  ghost predicate AllGood(f: Snapshot) {
    Whole(f) && forall c :: c in f && CanCancel(c) ==> Good(f, c)
  }

  // ----- cancel -----

  /** Everything in s, and what was derived from it, is canceled unless it is already. */
  ghost function AfterCancels(f: Snapshot, s: set<Context>, e: Error): (g: Snapshot)
    ensures g.Keys == f.Keys
  {
    map c | c in f ::
      if CanCancel(c) && f[c].err.None? && exists d :: d in s && Under(c, d)
      then Fields(Some(e), true, {}, false) else f[c]
  }

  ghost function AfterCancel(f: Snapshot, a: Context, e: Error): (g: Snapshot)
    ensures g.Keys == f.Keys
  {
    map c | c in f ::
      if CanCancel(c) && f[c].err.None? && Under(c, a) then Fields(Some(e), true, {}, false) else f[c]
  }

  /** What is below a canceled context is canceled. */
  lemma {:induction false} BelowCanceled(f: Snapshot, a: Context, c: Context)
    requires GoodUnder(f, a) && Whole(f) && a in f && CanCancel(a) && f[a].err.Some?
    requires c in f && CanCancel(c) && Under(c, a)
    ensures f[c].err.Some?
    decreases c.depth
  {
    if c != a {
      BelowCanceled(f, a, Over(c));
      assert Good(f, Over(c));
    }
  }

  /** A context's tree is itself and the trees of its children. */
  lemma CanceledIs(f: Snapshot, a: Context, e: Error)
    requires GoodUnder(f, a) && Whole(f) && a in f && CanCancel(a) && f[a].err.None?
    ensures AfterCancel(f, a, e) == AfterCancels(f, f[a].children, e)[a := Fields(Some(e), true, {}, false)]
  {
    assert Under(a, a) && Good(f, a);
    var g := AfterCancels(f, f[a].children, e);
    forall c | c in f && c != a && CanCancel(c) && f[c].err.None?
      ensures Under(c, a) <==> exists d :: d in f[a].children && Under(c, d)
    {
      ReachedByChild(f, a, c);
    }
  }

  lemma ReachedByChild(f: Snapshot, a: Context, c: Context)
    requires GoodUnder(f, a) && Whole(f) && a in f && CanCancel(a) && f[a].err.None?
    requires c in f && c != a && CanCancel(c) && f[c].err.None?
    ensures Under(c, a) <==> exists d :: d in f[a].children && Under(c, d)
  {
    assert Under(a, a) && Good(f, a);
    if Under(c, a) {
      var d := Through(c, a);
      assert Under(d, a);
      ThroughIsIn(f, c, d);
      if f[d].err.Some? {
        GoodBelow(f, a, d);
        BelowCanceled(f, d, c);
      }
    }
    if exists d :: d in f[a].children && Under(c, d) {
      var d :| d in f[a].children && Under(c, d);
      assert Under(d, a);
      UnderTransitive(c, d, a);
    }
  }

  lemma {:induction false} ThroughIsIn(f: Snapshot, c: Context, d: Context)
    requires Whole(f) && c in f && Under(c, d) && CanCancel(c)
    ensures d in f && CanCancel(d)
    decreases c.depth
  {
    if c != d {
      ThroughIsIn(f, Over(c), d);
    }
  }

  lemma GoodBelow(f: Snapshot, a: Context, d: Context)
    requires GoodUnder(f, a) && Under(d, a)
    ensures GoodUnder(f, d)
  {
    forall c | c in f && CanCancel(c) && Under(c, d) ensures Good(f, c) {
      UnderTransitive(c, d, a);
    }
  }

  /** Canceling the trees of some children one after the other cancels them all. */
  lemma CanceledNext(f: Snapshot, s: set<Context>, d: Context, e: Error)
    ensures AfterCancel(AfterCancels(f, s, e), d, e) == AfterCancels(f, s + {d}, e)
  {
    var g := AfterCancels(f, s, e);
    forall c | c in f ensures AfterCancel(g, d, e)[c] == AfterCancels(f, s + {d}, e)[c] {
      if exists x :: x in s && Under(c, x) {
        var x :| x in s && Under(c, x);
        assert x in s + {d};
      }
    }
  }

  /** The tree of a child that is not among those already canceled is as it was. */
  lemma StillGood(f: Snapshot, a: Context, s: set<Context>, d: Context, e: Error)
    requires GoodUnder(f, d) && Over(d) == a && d !in s && forall x :: x in s ==> Over(x) == a
    ensures GoodUnder(AfterCancels(f, s, e), d)
  {
    var g := AfterCancels(f, s, e);
    forall c | c in g && Under(c, d) ensures g[c] == f[c] {
      if exists x :: x in s && Under(c, x) {
        var x :| x in s && Under(c, x);
        Apart(c, d, x);
      }
    }
    forall c | c in g && CanCancel(c) && Under(c, d) ensures Good(g, c) {
      assert Good(f, c);
      forall x | x in g && Over(x) == c ensures g[x] == f[x] {
        assert Under(x, d);
      }
    }
  }

  lemma CanceledAgain(f: Snapshot, a: Context, e: Error)
    requires GoodUnder(f, a) && Whole(f) && a in f && CanCancel(a) && f[a].err.Some?
    ensures AfterCancel(f, a, e) == f
  {
    forall c | c in f && CanCancel(c) && Under(c, a) ensures f[c].err.Some? {
      BelowCanceled(f, a, c);
    }
  }

  /** What happens below d has nothing to do with a context that is less deep. */
  lemma Elsewhere(f: Snapshot, a: Context, x: Fields, d: Context, e: Error)
    requires a in f && a.depth < d.depth
    ensures AfterCancel(f[a := x], d, e) == AfterCancel(f, d, e)[a := x]
    ensures GoodUnder(f, d) ==> GoodUnder(f[a := x], d)
  {
    assert !Under(a, d) by {
      if Under(a, d) {
        NoDeeper(a, d);
      }
    }
    if GoodUnder(f, d) {
      forall c | c in f && CanCancel(c) && Under(c, d) ensures Good(f[a := x], c) {
        assert Good(f, c);
        assert forall y :: y in f && Over(y) == c ==> Under(y, d);
      }
    }
  }

  /** c is taken from its parent's children. */
  ghost function Dropped(f: Snapshot, c: Context): (g: Snapshot)
    ensures g.Keys == f.Keys
  {
    var p := Over(c);
    if p != null && p in f then f[p := f[p].(children := f[p].children - {c})] else f
  }

  /** After a cancel call everything is as it should be. */
  lemma CancelGood(f: Snapshot, a: Context, e: Error)
    requires AllGood(f) && a in f && CanCancel(a)
    ensures AllGood(Dropped(AfterCancel(f, a, e), a))
    ensures f[a].err.Some? ==> Dropped(AfterCancel(f, a, e), a) == f
  {
    var g := AfterCancel(f, a, e);
    var h := Dropped(g, a);
    assert Under(a, a);
    forall c | c in h && CanCancel(c) ensures Good(h, c) {
      assert Good(f, c);
      CancelGoodAt(f, a, e, c);
    }
    if f[a].err.Some? {
      CanceledAgain(f, a, e);
      if Over(a) != null {
        assert Good(f, Over(a));
        assert f[Over(a)].children - {a} == f[Over(a)].children;
      }
    }
  }

  lemma CancelGoodAt(f: Snapshot, a: Context, e: Error, c: Context)
    requires AllGood(f) && a in f && CanCancel(a) && c in f && CanCancel(c)
    ensures Good(Dropped(AfterCancel(f, a, e), a), c)
  {
    hide AllGood, Good, AfterCancel, Dropped, Under;
    OneGood(f, c);
    if Under(c, a) {
      GoodBelowCancel(f, a, e, c);
    } else {
      GoodBesideCancel(f, a, e, c);
    }
  }

  lemma OneGood(f: Snapshot, c: Context)
    requires AllGood(f) && c in f && CanCancel(c)
    ensures Good(f, c)
  {
  }

  lemma GoodBelowCancel(f: Snapshot, a: Context, e: Error, c: Context)
    requires c in f && Good(f, c) && CanCancel(a) && CanCancel(c) && Under(c, a)
    ensures Good(Dropped(AfterCancel(f, a, e), a), c)
  {
    var h := Dropped(AfterCancel(f, a, e), a);
    if Over(a) == c {
      NoDeeper(c, a);
    }
    assert h[c] == AfterCancel(f, a, e)[c];
    assert h[c].children == {};
    forall d | d in f && CanCancel(d) && Over(d) == c ensures h[d].err.Some? {
      assert Under(d, a);
      assert h[d].err == AfterCancel(f, a, e)[d].err;
    }
  }

  lemma GoodBesideCancel(f: Snapshot, a: Context, e: Error, c: Context)
    requires c in f && Good(f, c) && a in f && CanCancel(a) && CanCancel(c) && !Under(c, a)
    ensures Good(Dropped(AfterCancel(f, a, e), a), c)
  {
    var h := Dropped(AfterCancel(f, a, e), a);
    assert Under(a, a);
    forall d | d in f && CanCancel(d) && Over(d) == c && d != a ensures h[d].err == f[d].err {
      assert !Under(d, a);
    }
    assert h[a].err.Some?;
    assert h[c].err == f[c].err && h[c].closed == f[c].closed && h[c].timer == f[c].timer;
    assert h[c].children == if Over(a) == c then f[c].children - {a} else f[c].children;
  }

  // ----- the calls -----

  /** A set of contexts with the parents of each. */
  ghost predicate Formed(all: set<Context>) {
    forall c :: c in all && c.parent != null ==> c.parent in all && c.parent.depth < c.depth
  }

  lemma {:induction false} OverIn(all: set<Context>, c: Context)
    requires Formed(all) && c in all && Over(c) != null
    ensures Over(c) in all
    decreases c.depth
  {
    if !CanCancel(c.parent) {
      OverIn(all, c.parent);
    }
  }

  lemma FormedWhole(all: set<Context>, f: Snapshot)
    requires Formed(all) && f.Keys == all
    ensures Whole(f)
  {
    forall c | c in f && Over(c) != null ensures Over(c) in f {
      OverIn(all, c);
    }
  }

  lemma NothingCanceled(f: Snapshot, e: Error)
    ensures AfterCancels(f, {}, e) == f
  {
  }

  lemma ChildrenGood(f: Snapshot, a: Context)
    requires GoodUnder(f, a) && Whole(f) && a in f && CanCancel(a) && f[a].err.None?
    ensures forall d :: d in f[a].children ==> d in f && CanCancel(d) && Over(d) == a && GoodUnder(f, d)
  {
    assert Under(a, a) && Good(f, a);
    forall d | d in f[a].children ensures GoodUnder(f, d) {
      assert Under(d, a);
      GoodBelow(f, a, d);
    }
  }

  lemma ItselfGood(f: Snapshot, a: Context, e: Error)
    requires GoodUnder(f, a) && a in f && CanCancel(a)
    ensures f[a].timer ==> a.kind.TimerCtx? && f[a].err.None?
    ensures f[a].err.None? ==> AfterCancel(f, a, e)[a] == Fields(Some(e), true, {}, false)
  {
    assert Under(a, a) && Good(f, a);
  }

  /** Stopping the timer completes what the first call or a later one has done. */
  lemma StopIs(f: Snapshot, g: Snapshot, c: Context, e: Error, first: bool)
    requires c in f && (first <==> f[c].err.None?) && (f[c].timer ==> f[c].err.None?)
    requires f[c].err.None? ==> AfterCancel(f, c, e)[c] == Fields(Some(e), true, {}, false)
    requires !first ==> AfterCancel(f, c, e) == f
    requires g == if first then AfterCancel(f, c, e)[c := Fields(Some(e), true, {}, f[c].timer)] else f
    ensures g[c := g[c].(timer := false)] == AfterCancel(f, c, e)
  {
    hide AfterCancel;
    var h := AfterCancel(f, c, e);
    assert h[c := h[c]] == h;
  }

  /** Taking c from its parent's children and stopping its timer can be done in either order. */
  lemma DropThenStop(f: Snapshot, c: Context)
    requires c in f
    ensures Dropped(f, c)[c := Dropped(f, c)[c].(timer := false)] == Dropped(f[c := f[c].(timer := false)], c)
  {
  }

  // ----- deriving contexts -----

  /** What propagateCancel does to a new context c and the contexts that there were. */
  ghost function Propagated(f: Snapshot, c: Context): (g: Snapshot)
    requires c in f
    ensures g.Keys == f.Keys
  {
    var p := Over(c);
    if p == null || p !in f then f
    else if f[p].err.Some? then f[c := Fields(f[p].err, true, {}, false)]
    else f[p := f[p].(children := f[p].children + {c})]
  }

  /** A context that nothing was derived from yet. */
  ghost predicate Leaf(all: set<Context>, c: Context) {
    forall d :: d in all ==> d.parent != c
  }

  lemma {:induction false} LeafIsOverNothing(all: set<Context>, c: Context, d: Context)
    requires Formed(all) && Leaf(all, c) && d in all
    ensures Over(d) != c && (d != c ==> !Under(d, c))
    decreases d.depth
  {
    if d.parent != null && !CanCancel(d.parent) {
      LeafIsOverNothing(all, c, d.parent);
    }
    if d != c && Over(d) != null {
      OverIn(all, d);
      LeafIsOverNothing(all, c, Over(d));
    }
  }

  /** With a new context everything is as it should be, once propagateCancel is done with it. */
  lemma PropagatedGood(all: set<Context>, f: Snapshot, c: Context)
    requires Formed(all) && f.Keys == all && c in all && CanCancel(c) && Leaf(all, c)
    requires f[c] == Fields(None, false, {}, false)
    requires forall d :: d in f && CanCancel(d) && d != c ==> Good(f - {c}, d)
    ensures AllGood(Propagated(f, c))
  {
    var g, p := Propagated(f, c), Over(c);
    FormedWhole(all, g);
    forall d | d in all ensures Over(d) != c {
      LeafIsOverNothing(all, c, d);
    }
    if p != null {
      OverIn(all, c);
    }
    forall d | d in g && CanCancel(d) ensures Good(g, d) {
      if d != c {
        assert Good(f - {c}, d);
      }
    }
  }

  /** propagateCancel, for a parent of one of the kinds of contexts here. */
  method PropagateCancel(c: Context, ghost all: set<Context>, ghost height: nat)
    requires Formed(all) && c in all && CanCancel(c) && Leaf(all, c) && c.Now() == Fields(None, false, {}, false)
    requires forall d :: d in all ==> d.depth <= height
    modifies all
    ensures Seen(all) == Propagated(old(Seen(all)), c)
  {
    hide AfterCancel;
    var p := c.ParentCancelCtx(all);
    if p == null {
      return;
    }
    if p.err.Some? {
      ghost var f := Seen(all);
      LeafAlone(all, f, c, p.err.value);
      c.Cancel(false, p.err.value, all, height);
    } else {
      p.children := p.children + {c};
    }
  }

  lemma LeafAlone(all: set<Context>, f: Snapshot, c: Context, e: Error)
    requires Formed(all) && f.Keys == all && c in all && CanCancel(c) && Leaf(all, c)
    requires f[c] == Fields(None, false, {}, false)
    ensures GoodUnder(f, c) && AfterCancel(f, c, e) == f[c := Fields(Some(e), true, {}, false)]
  {
    forall d | d in all ensures Over(d) != c && (d != c ==> !Under(d, c)) {
      LeafIsOverNothing(all, c, d);
    }
  }

  /** A new context, without cancellation. */
  method WithValue(parent: Context?, key: int, val: int, ghost all: set<Context>) returns (c: Context)
    requires Formed(all) && AllGood(Seen(all)) && (parent != null ==> parent in all)
    ensures fresh(c) && c.parent == parent && c.kind == ValueCtx(key, val)
    ensures Formed(all + {c}) && AllGood(Seen(all + {c}))
  {
    c := new Context(parent, ValueCtx(key, val));
    NewContext(all, c);
    ghost var f, g := Seen(all), Seen(all + {c});
    FormedWhole(all + {c}, g);
    forall d | d in g && CanCancel(d) ensures Good(g, d) {
      assert Good(f, d);
    }
  }

  lemma NewContext(all: set<Context>, c: Context)
    requires Formed(all) && c !in all && (c.parent != null ==> c.parent in all && c.parent.depth < c.depth)
    requires forall d :: d in all ==> d.parent != c
    ensures Formed(all + {c}) && Leaf(all + {c}, c)
  {
  }

  lemma NewIsGood(f: Snapshot, g: Snapshot, c: Context)
    requires AllGood(f) && c !in f && g.Keys == f.Keys + {c} && forall d :: d in f ==> g[d] == f[d]
    ensures g - {c} == f && forall d :: d in g && CanCancel(d) && d != c ==> Good(g - {c}, d)
  {
    assert g - {c} == f;
  }

  method WithCancel(parent: Context?, ghost all: set<Context>, ghost height: nat) returns (c: Context)
    requires Formed(all) && AllGood(Seen(all)) && (parent != null ==> parent in all)
    requires forall d :: d in all ==> d.depth <= height
    modifies all
    ensures fresh(c) && c.parent == parent && c.kind == CancelCtx
    ensures Formed(all + {c}) && AllGood(Seen(all + {c}))
    ensures Seen(all + {c}) == Propagated(old(Seen(all))[c := Fields(None, false, {}, false)], c)
  {
    c := Derive(parent, CancelCtx, all, height);
  }

  /** newCancelCtx and propagateCancel, of WithCancel and WithDeadline. */
  method Derive(parent: Context?, kind: Kind, ghost all: set<Context>, ghost height: nat) returns (c: Context)
    requires Formed(all) && AllGood(Seen(all)) && (parent != null ==> parent in all) && !kind.ValueCtx?
    requires forall d :: d in all ==> d.depth <= height
    modifies all
    ensures fresh(c) && c.parent == parent && c.kind == kind
    ensures Formed(all + {c}) && AllGood(Seen(all + {c})) && c.depth <= height + 1
    ensures Seen(all + {c}) == Propagated(old(Seen(all))[c := Fields(None, false, {}, false)], c)
  {
    hide AllGood, Good, Propagated;
    c := new Context(parent, kind);
    NewContext(all, c);
    ghost var f := Seen(all + {c});
    assert f == old(Seen(all))[c := Fields(None, false, {}, false)];
    NewIsGood(old(Seen(all)), f, c);
    PropagatedGood(all + {c}, f, c);
    PropagateCancel(c, all + {c}, height + 1);
  }

  /** The earliest deadline on the way up from c. */
  ghost function Due(c: Context?): Option<int>
    decreases if c == null then 0 else c.depth + 1
  {
    if c == null then None
    else if c.kind.TimerCtx? then Some(c.kind.deadline)
    else if c.parent == null || c.parent.depth >= c.depth then None
    else Due(c.parent)
  }

  /** Deadline, which every kind of context but timerCtx passes on to its parent. */
  method DeadlineOf(parent: Context?, ghost all: set<Context>) returns (d: Option<int>)
    requires Formed(all) && (parent != null ==> parent in all)
    ensures d == Due(parent)
  {
    var c := parent;
    while c != null
      invariant (c != null ==> c in all) && Due(c) == Due(parent)
      decreases if c == null then 0 else c.depth + 1
    {
      if c.kind.TimerCtx? {
        return Some(c.kind.deadline);
      }
      c := c.parent;
    }
    return None;
  }

  /** The end of WithDeadline. */
  method SetTimer(c: Context, passed: bool, ghost all: set<Context>, ghost height: nat)
    requires Formed(all) && AllGood(Seen(all)) && c in all && c.kind.TimerCtx?
    requires forall d :: d in all ==> d.depth <= height
    modifies all
    ensures AllGood(Seen(all)) && Seen(all) == TimerSet(old(Seen(all)), c, passed)
  {
    hide AllGood, Good, AfterCancel, Dropped, Formed;
    ghost var f := Seen(all);
    if passed {
      GoodAll(f, c);
      CancelGood(f, c, DeadlineExceeded);
      c.Cancel(true, DeadlineExceeded, all, height);
    } else if c.err.None? {
      c.timer := true;
      TimerGood(f, Seen(all), c);
    }
  }

  /** With a deadline that has passed c is canceled and taken from its parent's children; otherwise its timer is set,
      unless it is canceled already. */
  ghost function TimerSet(f: Snapshot, c: Context, passed: bool): (g: Snapshot)
    requires c in f
  {
    if passed then Dropped(AfterCancel(f, c, DeadlineExceeded), c)
    else if f[c].err.None? then f[c := f[c].(timer := true)]
    else f
  }

  /** The error of the context that cancels c, if it has one. */
  ghost function Inherited(f: Snapshot, c: Context): Option<Error> {
    if Over(c) != null && Over(c) in f then f[Over(c)].err else None
  }

  /** What WithDeadline leaves behind: the new context is canceled like its parent, or canceled as its deadline is over
      and its parent as before, or its timer is set and it is among its parent's children. */
  ghost function Timed(f: Snapshot, c: Context, passed: bool): (g: Snapshot)
    requires c in f
  {
    if Inherited(f, c).Some? then f[c := Fields(Inherited(f, c), true, {}, false)]
    else if passed then f[c := Fields(Some(DeadlineExceeded), true, {}, false)]
    else Propagated(f, c)[c := Fields(None, false, {}, true)]
  }

  /** A new context's cancellation reaches no other. */
  lemma LeafCanceled(all: set<Context>, f: Snapshot, c: Context, e: Error)
    requires Formed(all) && f.Keys == all && c in all && CanCancel(c) && Leaf(all, c)
    ensures AfterCancel(f, c, e) == if f[c].err.None? then f[c := Fields(Some(e), true, {}, false)] else f
  {
    forall d | d in all && d != c ensures !Under(d, c) {
      LeafIsOverNothing(all, c, d);
    }
    assert Under(c, c);
  }

  lemma TimedIs(all: set<Context>, f: Snapshot, c: Context, passed: bool)
    requires Formed(all) && f.Keys == all && c in all && CanCancel(c) && Leaf(all, c)
    requires f[c] == Fields(None, false, {}, false)
    requires Over(c) != null ==> Over(c) in f && c !in f[Over(c)].children
    requires Inherited(f, c).Some? ==> f[Over(c)].children == {}
    ensures TimerSet(Propagated(f, c), c, passed) == Timed(f, c, passed)
  {
    hide AfterCancel, Formed;
    LeafCanceled(all, Propagated(f, c), c, DeadlineExceeded);
    var p := Over(c);
    if p != null {
      assert f[p].children + {c} - {c} == f[p].children;
      assert Inherited(f, c).Some? ==> f[p].children - {c} == f[p].children;
    }
  }

  /** What the children of a context are before a new one is derived from it. */
  lemma NotYetChild(all: set<Context>, f: Snapshot, c: Context)
    requires AllGood(f) && Formed(all + {c}) && f.Keys == all && c !in all
    ensures Over(c) != null ==> Over(c) in f && c !in f[Over(c)].children
    ensures Inherited(f, c).Some? ==> f[Over(c)].children == {}
  {
    if Over(c) != null {
      OverIn(all + {c}, c);
      assert Good(f, Over(c));
    }
  }

  lemma OthersKeepErrors(f: Snapshot, c: Context, passed: bool)
    requires c in f
    ensures Timed(f, c, passed).Keys == Propagated(f, c).Keys == f.Keys
    ensures forall d :: d in f && d != c ==> Timed(f, c, passed)[d].err == Propagated(f, c)[d].err == f[d].err
  {
  }

  lemma SeenAt(all: set<Context>, d: Context)
    requires d in all
    ensures Seen(all)[d] == d.Now()
  {
  }

  /** WithDeadline; passed is whether the deadline is over when the timer would be set. */
  method WithDeadline(parent: Context?, deadline: int, passed: bool, ghost all: set<Context>, ghost height: nat)
    returns (c: Context)
    requires Formed(all) && AllGood(Seen(all)) && (parent != null ==> parent in all)
    requires forall d :: d in all ==> d.depth <= height
    modifies all
    ensures fresh(c) && c.parent == parent && Formed(all + {c}) && AllGood(Seen(all + {c}))
    ensures c.kind ==
      if Due(parent).Some? && Due(parent).value < deadline then CancelCtx else TimerCtx(deadline)
    ensures var f := old(Seen(all))[c := Fields(None, false, {}, false)];
      Seen(all + {c}) == if c.kind.TimerCtx? then Timed(f, c, passed) else Propagated(f, c)
    ensures forall d :: d in all ==> d.err == old(d.err)
    ensures Due(c).Some? && Due(c).value <= deadline && (Due(parent).Some? ==> Due(c).value <= Due(parent).value)
  {
    hide AllGood, Good, Propagated, Seen, Timed, TimerSet;
    ghost var f0 := Seen(all);
    forall d | d in all ensures f0[d].err == d.err {
      SeenAt(all, d);
    }
    var cur := DeadlineOf(parent, all);
    if cur.Some? && cur.value < deadline {
      c := WithCancel(parent, all, height);
    } else {
      c := Derive(parent, TimerCtx(deadline), all, height);
      NotYetChild(all, f0, c);
      TimedIs(all + {c}, f0[c := Fields(None, false, {}, false)], c, passed);
      SetTimer(c, passed, all + {c}, height + 1);
    }
    OthersKeepErrors(f0[c := Fields(None, false, {}, false)], c, passed);
    forall d | d in all ensures d.err == old(d.err) {
      SeenAt(all + {c}, d);
    }
  }

  lemma GoodAll(f: Snapshot, a: Context)
    requires AllGood(f)
    ensures GoodUnder(f, a)
  {
  }

  lemma TimerGood(f: Snapshot, g: Snapshot, c: Context)
    requires AllGood(f) && c in f && c.kind.TimerCtx? && f[c].err.None? && g == f[c := f[c].(timer := true)]
    ensures AllGood(g)
  {
    forall d | d in g && CanCancel(d) ensures Good(g, d) {
      assert Good(f, d);
    }
  }

  lemma UpdatedTwice(f: Snapshot, c: Context, x: Fields, y: Fields)
    ensures f[c := x][c := y] == f[c := y]
  {
  }
}

