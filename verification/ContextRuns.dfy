/** Every run of every program that derives contexts and cancels them. */
module ContextRuns {
  import opened Options
  import opened ContextTree
  import opened ContextSteps
  import opened ContextInvariant
  import opened ContextProof

  // ----- steps keep the invariant -----

  lemma TopCanStep(s: State, t: nat, ch: Choice)
    requires Inv(s) && CanRun(s, t, ch)
    ensures CanStep(s.tree, s.nodes, t, Top(s.goroutines[t]), ch)
  {
    hide NodeOk, Enabled;
    assert StackOk(s.tree, s.nodes, t, s.goroutines[t]);
  }

  lemma StepStacks(s: State, t: nat, ch: Choice)
    requires Inv(s) && CanRun(s, t, ch)
    ensures var r := Step(s, t, ch); NodesOk(r.tree, r.nodes) && StacksOk(r)
  {
    hide NodeOk, FrameOk, Act, StackOk, Enabled, Moves;
    TopCanStep(s, t, ch);
    var f, r := Top(s.goroutines[t]), Step(s, t, ch);
    StepMoves(s.tree, s.nodes, t, f, ch);
    MovesShape(s.tree, s.nodes, r.nodes, t, f);
    forall n: nat | n < |s.tree| ensures NodeOk(r.tree, r.nodes, n) {
      StepNode(s.tree, s.nodes, t, f, ch, n);
    }
    forall u: nat | u < |r.goroutines| ensures StackOk(r.tree, r.nodes, u, r.goroutines[u]) {
      if u == t {
        OwnStack(s.tree, s.nodes, t, s.goroutines[t], ch);
      } else {
        OtherStack(s.tree, s.nodes, r.nodes, t, f, u, s.goroutines[u]);
      }
    }
  }

  lemma StepOwner(s: State, t: nat, ch: Choice, n: nat)
    requires Inv(s) && CanRun(s, t, ch) && n < |s.nodes| && |Step(s, t, ch).nodes| == |s.nodes|
    requires Step(s, t, ch).nodes[n].owner.Some?
    ensures var r := Step(s, t, ch); var u := r.nodes[n].owner.value;
      u < |r.goroutines| && Held(r.tree, r.goroutines[u], n)
  {
    hide NodeOk, FrameOk, Act, StackOk, Enabled;
    TopCanStep(s, t, ch);
    var f, r := Top(s.goroutines[t]), Step(s, t, ch);
    var u := r.nodes[n].owner.value;
    StepMoves(s.tree, s.nodes, t, f, ch);
    assert Moved(s.nodes[n], r.nodes[n], s.tree[n].creator, t,
                 Touched(s.tree, f) == Some(n), Propagating(f) && f.c == n);
    if u == t {
      StepLock(s.tree, s.nodes, t, f, ch, n);
      HeldAfter(s.tree, s.goroutines[t], Act(s.tree, s.nodes, t, f, ch).frames, n);
    }
  }

  lemma HeldAfter(tree: seq<Shape>, stack: Stack, frames: Stack, n: nat)
    requires Grown(tree) && stack != [] && Top(stack).c < |tree|
    requires Held(tree, frames, n) || (Held(tree, stack, n) && Holds(tree, Top(stack)) != Some(n))
    ensures Held(tree, Callers(stack) + frames, n)
  {
    var lower := Callers(stack);
    if Held(tree, frames, n) {
      var i: nat :| i < |frames| && frames[i].c < |tree| && Holds(tree, frames[i]) == Some(n);
      assert (lower + frames)[|lower| + i] == frames[i];
    } else {
      var i: nat :| i < |stack| && stack[i].c < |tree| && Holds(tree, stack[i]) == Some(n);
      assert (lower + frames)[i] == stack[i];
    }
  }

  lemma StepChildren(s: State, t: nat, ch: Choice, p: nat, c: nat)
    requires Inv(s) && CanRun(s, t, ch) && p < |s.nodes| && c < |s.nodes| && |Step(s, t, ch).nodes| == |s.nodes|
    requires Stale(Step(s, t, ch).nodes, p, c)
    ensures WillBeRemoved(Step(s, t, ch), c)
  {
    hide NodeOk, FrameOk, Act, Enabled, Resumed;
    TopCanStep(s, t, ch);
    var stack, r := s.goroutines[t], Step(s, t, ch);
    var f, lower := Top(stack), Callers(stack);
    var e := Act(s.tree, s.nodes, t, f, ch);
    StaleBefore(s.tree, s.nodes, t, f, ch, p, c);
    if Stale(s.nodes, p, c) {
      var u: nat, i: nat :| u < |s.goroutines| && i < |s.goroutines[u]| && WillRemove(s.goroutines[u][i], c);
      if u != t || i < |lower| {
        assert r.goroutines[u][i] == s.goroutines[u][i];
      } else {
        assert s.goroutines[u][i] == f;
        var j: nat :| j < |e.frames| && WillRemove(e.frames[j], c);
        assert r.goroutines[t][|lower| + j] == e.frames[j];
      }
    } else {
      assert StackOk(s.tree, s.nodes, t, stack);
      Canceler(s.tree, s.nodes, t, stack, p);
      if f.remove {
        CancelerRemoves(s.tree, s.nodes, t, f, ch);
        assert r.goroutines[t][|lower|] == e.frames[0];
      } else {
        var i: nat :| i + 1 < |stack| && WillRemove(stack[i], c);
        assert r.goroutines[t][i] == stack[i];
      }
    }
  }

  lemma CancelerRemoves(tree: seq<Shape>, nodes: seq<Node>, t: nat, f: Frame, ch: Choice)
    requires CanStep(tree, nodes, t, f, ch) && f.CancelLocked? && f.remove && nodes[f.c].err.None?
    ensures var e := Act(tree, nodes, t, f, ch); |e.frames| == 1 && WillRemove(e.frames[0], f.c)
  {
  }

  /** A step of propagateCancel that is not its last stays in it. */
  lemma StaysPending(tree: seq<Shape>, nodes: seq<Node>, t: nat, f: Frame, ch: Choice)
    requires CanStep(tree, nodes, t, f, ch) && Propagating(f) && Act(tree, nodes, t, f, ch).nodes[f.c].pending
    ensures var e := Act(tree, nodes, t, f, ch); e.frames != [] && Propagating(e.frames[0]) && e.frames[0].c == f.c
  {
  }

  lemma StepPending(s: State, t: nat, ch: Choice, c: nat)
    requires Inv(s) && CanRun(s, t, ch) && c < |s.nodes| == |Step(s, t, ch).nodes| && Step(s, t, ch).nodes[c].pending
    ensures var r, u := Step(s, t, ch), s.tree[c].creator; u < |r.goroutines| && InPropagate(r.goroutines[u], c)
  {
    hide NodeOk, FrameOk, StackOk, Act, Enabled, Resumed;
    TopCanStep(s, t, ch);
    var stack, r, u := s.goroutines[t], Step(s, t, ch), s.tree[c].creator;
    var f, e := Top(stack), Act(s.tree, s.nodes, t, Top(stack), ch);
    StepMoves(s.tree, s.nodes, t, f, ch);
    assert Moved(s.nodes[c], r.nodes[c], s.tree[c].creator, t,
                 Touched(s.tree, f) == Some(c), Propagating(f) && f.c == c);
    var i: nat :| i < |s.goroutines[u]| && Propagating(s.goroutines[u][i]) && s.goroutines[u][i].c == c;
    if u == t {
      if i < |stack| - 1 {
        assert r.goroutines[t][i] == stack[i];
      } else {
        StaysPending(s.tree, s.nodes, t, f, ch);
        assert r.goroutines[t][|stack| - 1] == e.frames[0];
      }
    }
  }

  lemma StepKeeps(s: State, t: nat, ch: Choice)
    requires Inv(s) && CanRun(s, t, ch)
    ensures Inv(Step(s, t, ch))
  {
    hide NodeOk, StackOk, Act, Enabled, Held, InPropagate, WillBeRemoved, Stale;
    var r := Step(s, t, ch);
    StepStacks(s, t, ch);
    forall n: nat | n < |r.nodes| && r.nodes[n].owner.Some?
      ensures r.nodes[n].owner.value < |r.goroutines| && Held(r.tree, r.goroutines[r.nodes[n].owner.value], n)
    {
      StepOwner(s, t, ch, n);
    }
    forall c: nat | c < |r.nodes| && r.nodes[c].pending
      ensures r.tree[c].creator < |r.goroutines| && InPropagate(r.goroutines[r.tree[c].creator], c)
    {
      StepPending(s, t, ch, c);
    }
    forall p: nat, c: nat | p < |r.nodes| && c < |r.nodes| && Stale(r.nodes, p, c) ensures WillBeRemoved(r, c) {
      StepChildren(s, t, ch, p, c);
    }
  }

  // ----- calls -----

  /** A call that the program makes, in a goroutine of its own, or a timer that fires. */
  datatype Call =
    | WithCancel(parent: Option<nat>)
    | WithDeadline(parent: Option<nat>, deadline: int)
    | WithValue(parent: Option<nat>, key: int, val: int)
    | CancelFunc(c: nat)
    | Fire(c: nat)

  /** The program has only the contexts that have been returned to it. */
  ghost predicate Possible(s: State, call: Call) {
    match call
    case CancelFunc(c) => c < |s.tree| == |s.nodes| && s.nodes[c].ready && Cancellable(s.tree, c)
    case Fire(c) => c < |s.tree| == |s.nodes| && s.nodes[c].timer
    case _ => call.parent.Some? ==> call.parent.value < |s.nodes| == |s.tree| && s.nodes[call.parent.value].ready
  }

  /** A new context, and the goroutine that makes it. */
  function Derive(s: State, parent: Option<nat>, kind: Kind): State {
    var c, derived := |s.tree|, !kind.ValueCtx?;
    State(s.tree + [Shape(parent, kind, |s.goroutines|)],
          s.nodes + [Node(None, None, false, {}, false, derived, !derived)],
          s.goroutines + [if kind.CancelCtx? then [Return(c), Propagate(c)]
                          else if kind.TimerCtx? then [Deadlined(c), Propagate(c)]
                          else []])
  }

  /** The kind of context that WithDeadline makes. */
  function DeadlineKind(tree: seq<Shape>, parent: Option<nat>, deadline: int): Kind
    requires Grown(tree) && In(tree, parent)
  {
    var cur := Deadline(tree, parent);
    if cur.Some? && cur.value < deadline then CancelCtx else TimerCtx(deadline)
  }

  function Begin(s: State, call: Call): State
    requires Grown(s.tree) && |s.tree| == |s.nodes| && Possible(s, call)
  {
    match call
    case WithCancel(parent) => Derive(s, parent, CancelCtx)
    case WithDeadline(parent, deadline) => Derive(s, parent, DeadlineKind(s.tree, parent, deadline))
    case WithValue(parent, key, val) => Derive(s, parent, ValueCtx(key, val))
    case CancelFunc(c) => s.(goroutines := s.goroutines + [[CancelOf(s.tree, c, true, Canceled)]])
    case Fire(c) => s.(goroutines := s.goroutines + [[TimerCancel(c, true, DeadlineExceeded)]])
  }

  lemma DeriveNode(s: State, parent: Option<nat>, kind: Kind, n: nat)
    requires Inv(s) && In(s.tree, parent) && n <= |s.tree|
    ensures var r := Derive(s, parent, kind); Grown(r.tree) && NodeOk(r.tree, r.nodes, n)
  {
    var r := Derive(s, parent, kind);
    var shape := Shape(parent, kind, |s.goroutines|);
    if n < |s.tree| {
      assert NodeOk(s.tree, s.nodes, n);
      GrowKeeps(s.tree, shape, s.tree[n].parent);
      forall d | d in s.nodes[n].children ensures Above(r.tree, d) == Some(n) {
        GrowKeeps(s.tree, shape, s.tree[d].parent);
      }
    }
  }

  lemma DeriveFrame(s: State, parent: Option<nat>, kind: Kind, t: nat, f: Frame)
    requires Inv(s) && In(s.tree, parent) && FrameOk(s.tree, s.nodes, t, f)
    ensures var r := Derive(s, parent, kind); Grown(r.tree) && FrameOk(r.tree, r.nodes, t, f)
    ensures var r := Derive(s, parent, kind); Holds(r.tree, f) == Holds(s.tree, f)
    ensures Resumed(s.nodes, f) ==> Resumed(Derive(s, parent, kind).nodes, f)
  {
    hide FrameOk, Resumed, Nearest, Holds;
    var r := Derive(s, parent, kind);
    FrameIn(s.tree, s.nodes, t, f);
    GrowKeeps(s.tree, Shape(parent, kind, |s.goroutines|), s.tree[f.c].parent);
    FrameGrows(s.tree, r.tree, s.nodes, r.nodes, t, f);
    ResumedGrows(s.nodes, r.nodes, f);
  }

  lemma FrameIn(tree: seq<Shape>, nodes: seq<Node>, t: nat, f: Frame)
    requires Grown(tree) && |tree| == |nodes| && FrameOk(tree, nodes, t, f)
    ensures f.c < |tree|
  {
  }

  /** What an activation knows is not touched by a context more. */
  lemma FrameGrows(tree: seq<Shape>, tree': seq<Shape>, nodes: seq<Node>, nodes': seq<Node>, t: nat, f: Frame)
    requires Grown(tree) && |tree| == |nodes| && FrameOk(tree, nodes, t, f) && f.c < |tree|
    requires Grown(tree') && |tree'| == |nodes'| && tree <= tree' && nodes <= nodes'
    requires Above(tree', f.c) == Above(tree, f.c)
    ensures FrameOk(tree', nodes', t, f) && Holds(tree', f) == Holds(tree, f)
  {
    hide Nearest;
    assert tree'[f.c] == tree[f.c] && nodes'[f.c] == nodes[f.c];
  }

  lemma ResumedGrows(nodes: seq<Node>, nodes': seq<Node>, f: Frame)
    requires nodes <= nodes' && f.c < |nodes|
    ensures Resumed(nodes, f) ==> Resumed(nodes', f)
  {
  }

  lemma DeriveStack(s: State, parent: Option<nat>, kind: Kind, t: nat)
    requires Inv(s) && In(s.tree, parent) && t <= |s.goroutines|
    ensures var r := Derive(s, parent, kind); Grown(r.tree) && StackOk(r.tree, r.nodes, t, r.goroutines[t])
  {
    hide FrameOk, Resumed, NodeOk;
    var r := Derive(s, parent, kind);
    if t < |s.goroutines| {
      var stack := s.goroutines[t];
      assert StackOk(s.tree, s.nodes, t, stack);
      forall i: nat | i < |stack| ensures FrameOk(r.tree, r.nodes, t, stack[i]) {
        DeriveFrame(s, parent, kind, t, stack[i]);
      }
      if stack != [] {
        DeriveFrame(s, parent, kind, t, Top(stack));
      }
    } else {
      NewStack(s, parent, kind);
    }
  }

  lemma NewStack(s: State, parent: Option<nat>, kind: Kind)
    requires Inv(s) && In(s.tree, parent)
    ensures var r := Derive(s, parent, kind);
      Grown(r.tree) && StackOk(r.tree, r.nodes, |s.goroutines|, r.goroutines[|s.goroutines|])
  {
    hide NodeOk, Nearest, StacksOk, OwnersOk, PendingOk, ChildrenOk;
    var r, c := Derive(s, parent, kind), |s.tree|;
    if !kind.ValueCtx? {
      NewFrames(r.tree, r.nodes, |s.goroutines|, c);
    }
  }

  /** The activations in which a new context is passed to propagateCancel. */
  lemma NewFrames(tree: seq<Shape>, nodes: seq<Node>, t: nat, c: nat)
    requires Grown(tree) && |tree| == |nodes| && c < |tree| && !tree[c].kind.ValueCtx? && tree[c].creator == t
    requires nodes[c] == Node(None, None, false, {}, false, true, false)
    ensures FrameOk(tree, nodes, t, Propagate(c)) && Resumed(nodes, Propagate(c))
    ensures FrameOk(tree, nodes, t, Return(c)) && (tree[c].kind.TimerCtx? ==> FrameOk(tree, nodes, t, Deadlined(c)))
  {
    hide Nearest;
  }

  lemma DeriveHeld(s: State, parent: Option<nat>, kind: Kind, t: nat, n: nat)
    requires Inv(s) && In(s.tree, parent) && t < |s.goroutines| && Held(s.tree, s.goroutines[t], n)
    ensures var r := Derive(s, parent, kind); Grown(r.tree) && Held(r.tree, r.goroutines[t], n)
  {
    hide FrameOk, Resumed, NodeOk;
    var r, stack := Derive(s, parent, kind), s.goroutines[t];
    var i: nat :| i < |stack| && stack[i].c < |s.tree| && Holds(s.tree, stack[i]) == Some(n);
    assert StackOk(s.tree, s.nodes, t, stack);
    DeriveFrame(s, parent, kind, t, stack[i]);
    assert r.goroutines[t][i] == stack[i];
  }

  lemma MoreGoroutines(s: State, r: State, c: nat)
    requires |s.goroutines| <= |r.goroutines| && WillBeRemoved(s, c)
    requires forall t: nat :: t < |s.goroutines| ==> r.goroutines[t] == s.goroutines[t]
    ensures WillBeRemoved(r, c)
  {
    var t: nat, i: nat :| t < |s.goroutines| && i < |s.goroutines[t]| && WillRemove(s.goroutines[t][i], c);
    assert WillRemove(r.goroutines[t][i], c);
  }

  lemma DeriveKeeps(s: State, parent: Option<nat>, kind: Kind)
    requires Inv(s) && In(s.tree, parent)
    requires kind.TimerCtx? ==> NoLater(Some(kind.deadline), Deadline(s.tree, parent))
    ensures Inv(Derive(s, parent, kind))
  {
    hide NodeOk, FrameOk, StackOk, Held, WillBeRemoved;
    var r := Derive(s, parent, kind);
    forall n: nat | n < |r.tree| ensures NodeOk(r.tree, r.nodes, n) {
      DeriveNode(s, parent, kind, n);
    }
    forall c | 0 <= c < |r.tree| && r.tree[c].kind.TimerCtx?
      ensures NoLater(Some(r.tree[c].kind.deadline), Deadline(r.tree, r.tree[c].parent))
    {
      GrowKeeps(s.tree, Shape(parent, kind, |s.goroutines|), r.tree[c].parent);
    }
    forall t: nat | t < |r.goroutines| ensures StackOk(r.tree, r.nodes, t, r.goroutines[t]) {
      DeriveStack(s, parent, kind, t);
    }
    forall n: nat | n < |r.nodes| && r.nodes[n].owner.Some?
      ensures r.nodes[n].owner.value < |r.goroutines| && Held(r.tree, r.goroutines[r.nodes[n].owner.value], n)
    {
      DeriveHeld(s, parent, kind, s.nodes[n].owner.value, n);
    }
    forall c: nat | c < |r.nodes| && r.nodes[c].pending
      ensures r.tree[c].creator < |r.goroutines| && InPropagate(r.goroutines[r.tree[c].creator], c)
    {
      if c == |s.nodes| {
        assert Propagating(r.goroutines[|s.goroutines|][1]);
      }
    }
    forall p: nat, c: nat | p < |r.nodes| && c < |r.nodes| && Stale(r.nodes, p, c) ensures WillBeRemoved(r, c) {
      assert NodeOk(r.tree, r.nodes, p);
      DeriveStale(s, parent, kind, p, c);
      MoreGoroutines(s, r, c);
    }
  }

  lemma DeriveStale(s: State, parent: Option<nat>, kind: Kind, p: nat, c: nat)
    requires Inv(s) && In(s.tree, parent) && p <= |s.nodes| && c <= |s.nodes|
    requires Stale(Derive(s, parent, kind).nodes, p, c)
    ensures p < |s.nodes| && c < |s.nodes| && Stale(s.nodes, p, c)
  {
    if p < |s.nodes| {
      assert NodeOk(s.tree, s.nodes, p);
    }
  }

  lemma CallKeeps(s: State, c: nat, f: Frame)
    requires Inv(s) && f.c < |s.nodes| && FrameOk(s.tree, s.nodes, |s.goroutines|, f) && (f.Cancel? || f.TimerCancel?)
    requires f.remove
    ensures Inv(s.(goroutines := s.goroutines + [[f]]))
  {
    hide NodeOk, FrameOk, Held, WillBeRemoved;
    var r := s.(goroutines := s.goroutines + [[f]]);
    forall t: nat | t < |r.goroutines| ensures StackOk(r.tree, r.nodes, t, r.goroutines[t]) {
      if t < |s.goroutines| {
        assert StackOk(s.tree, s.nodes, t, s.goroutines[t]);
      }
    }
    forall p: nat, c: nat | p < |r.nodes| && c < |r.nodes| && Stale(r.nodes, p, c) ensures WillBeRemoved(r, c) {
      MoreGoroutines(s, r, c);
    }
  }

  lemma BeginKeeps(s: State, call: Call)
    requires Inv(s) && Possible(s, call)
    ensures Inv(Begin(s, call))
  {
    hide StackOk, Held, WillBeRemoved, Stale, Above;
    match call
    case WithCancel(parent) => DeriveKeeps(s, parent, CancelCtx);
    case WithDeadline(parent, deadline) => DeriveKeeps(s, parent, DeadlineKind(s.tree, parent, deadline));
    case WithValue(parent, key, val) => DeriveKeeps(s, parent, ValueCtx(key, val));
    case CancelFunc(c) =>
      assert NodeOk(s.tree, s.nodes, c);
      CallKeeps(s, c, CancelOf(s.tree, c, true, Canceled));
    case Fire(c) =>
      assert NodeOk(s.tree, s.nodes, c);
      CallKeeps(s, c, TimerCancel(c, true, DeadlineExceeded));
  }
}
