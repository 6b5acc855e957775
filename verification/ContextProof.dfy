/** Every step of every goroutine keeps the invariant. */
module ContextProof {
  import opened Options
  import opened ContextTree
  import opened ContextSteps
  import opened ContextInvariant

  // ----- what a step may change -----

  /** The context whose lock-protected fields a step of this activation may change. */
  function Touched(tree: seq<Shape>, f: Frame): Option<nat>
    requires Grown(tree) && f.c < |tree|
  {
    if Holds(tree, f).Some? then Holds(tree, f) else Wants(tree, f)
  }

  /** How a step of goroutine t may change a context. */
  ghost predicate Moved(x: Node, y: Node, creator: nat, t: nat, touched: bool, settling: bool) {
    && (x.err.Some? ==> y.err == x.err) && (x.closed ==> y.closed) && (!x.pending ==> !y.pending)
    && (x.ready ==> y.ready)
    && (!touched ==> y.owner == x.owner && y.err == x.err && y.closed == x.closed && y.children == x.children
                     && y.timer == x.timer)
    && (touched ==> (x.owner.Some? ==> x.owner.value == t) && (y.owner.Some? ==> y.owner.value == t))
    && (!settling ==> y.pending == x.pending)
    && (x.pending && creator != t ==> y.pending && y.err == x.err)
  }

  ghost predicate Moves(tree: seq<Shape>, a: seq<Node>, b: seq<Node>, t: nat, f: Frame)
    requires Grown(tree) && f.c < |tree|
  {
    && |a| == |b| == |tree|
    && forall n: nat :: n < |tree| ==>
      Moved(a[n], b[n], tree[n].creator, t, Touched(tree, f) == Some(n), Propagating(f) && f.c == n)
  }

  lemma CanceledKept(tree: seq<Shape>, a: seq<Node>, b: seq<Node>, t: nat, f: Frame, s: set<nat>)
    requires Grown(tree) && f.c < |tree| && Moves(tree, a, b, t, f) && AllCanceled(a, s)
    ensures AllCanceled(b, s)
  {
    forall d | d in s ensures d < |b| && b[d].err.Some? {
      assert Moved(a[d], b[d], tree[d].creator, t, Touched(tree, f) == Some(d), Propagating(f) && f.c == d);
    }
  }

  /** What another activation g, of goroutine u, knows stays true when f of goroutine t takes a step. */
  lemma FrameKept(tree: seq<Shape>, a: seq<Node>, b: seq<Node>, t: nat, f: Frame, u: nat, g: Frame)
    requires Grown(tree) && f.c < |tree| && Moves(tree, a, b, t, f) && FrameOk(tree, a, u, g)
    requires u == t ==> (Holds(tree, g).Some? ==> Holds(tree, g) != Touched(tree, f))
    requires u == t && Propagating(g) ==> g.PropagateCalled? && !Propagating(f)
    ensures FrameOk(tree, b, u, g)
  {
    var c := g.c;
    assert Moved(a[c], b[c], tree[c].creator, t, Touched(tree, f) == Some(c), Propagating(f) && f.c == c);
    if Above(tree, c).Some? {
      var p := Above(tree, c).value;
      assert Moved(a[p], b[p], tree[p].creator, t, Touched(tree, f) == Some(p), Propagating(f) && f.c == p);
    }
    if g.CancelLoop? || g.CancelCalled? {
      CanceledKept(tree, a, b, t, f, a[c].children - g.rest);
    }
  }

  lemma ResumedKept(tree: seq<Shape>, a: seq<Node>, b: seq<Node>, t: nat, f: Frame, g: Frame)
    requires Grown(tree) && f.c < |tree| && Moves(tree, a, b, t, f) && g.c < |a| && Resumed(a, g)
    ensures Resumed(b, g)
  {
    var c := if g.CancelCalled? then g.child else g.c;
    if c < |a| {
      assert Moved(a[c], b[c], tree[c].creator, t, Touched(tree, f) == Some(c), Propagating(f) && f.c == c);
    }
  }

  // ----- one step, seen from the contexts -----

  /** The activation f on top of the stack of goroutine t can take a step. */
  ghost predicate CanStep(tree: seq<Shape>, nodes: seq<Node>, t: nat, f: Frame, ch: Choice) {
    && NodesOk(tree, nodes) && FrameOk(tree, nodes, t, f) && Resumed(nodes, f) && Enabled(tree, nodes, f, ch)
    && (f.CancelLoop? ==> forall d :: d in f.rest ==> d < |tree|)
  }

  lemma CancelMoves(tree: seq<Shape>, nodes: seq<Node>, t: nat, f: Frame, ch: Choice, n: nat)
    requires CanStep(tree, nodes, t, f, ch) && n < |tree| && Canceling(f)
    ensures var b := Act(tree, nodes, t, f, ch).nodes;
      Moved(nodes[n], b[n], tree[n].creator, t, Touched(tree, f) == Some(n), Propagating(f) && f.c == n)
  {
    assert NodeOk(tree, nodes, n);
  }

  lemma OtherMoves(tree: seq<Shape>, nodes: seq<Node>, t: nat, f: Frame, ch: Choice, n: nat)
    requires CanStep(tree, nodes, t, f, ch) && n < |tree| && !Canceling(f)
    ensures var b := Act(tree, nodes, t, f, ch).nodes;
      Moved(nodes[n], b[n], tree[n].creator, t, Touched(tree, f) == Some(n), Propagating(f) && f.c == n)
  {
    assert NodeOk(tree, nodes, n);
  }

  lemma StepMoves(tree: seq<Shape>, nodes: seq<Node>, t: nat, f: Frame, ch: Choice)
    requires CanStep(tree, nodes, t, f, ch)
    ensures Moves(tree, nodes, Act(tree, nodes, t, f, ch).nodes, t, f)
  {
    var b := Act(tree, nodes, t, f, ch).nodes;
    forall n: nat | n < |tree|
      ensures Moved(nodes[n], b[n], tree[n].creator, t, Touched(tree, f) == Some(n), Propagating(f) && f.c == n)
    {
      if Canceling(f) {
        CancelMoves(tree, nodes, t, f, ch, n);
      } else {
        OtherMoves(tree, nodes, t, f, ch, n);
      }
    }
  }

  lemma CancelNode(tree: seq<Shape>, nodes: seq<Node>, t: nat, f: Frame, ch: Choice, n: nat)
    requires CanStep(tree, nodes, t, f, ch) && n < |tree| && Canceling(f)
    ensures NodeOk(tree, Act(tree, nodes, t, f, ch).nodes, n)
  {
    assert NodeOk(tree, nodes, n);
  }

  lemma RemoveNode(tree: seq<Shape>, nodes: seq<Node>, t: nat, f: Frame, ch: Choice, n: nat)
    requires CanStep(tree, nodes, t, f, ch) && n < |tree| && Removing(f)
    ensures NodeOk(tree, Act(tree, nodes, t, f, ch).nodes, n)
  {
    assert NodeOk(tree, nodes, n);
  }

  lemma AddedNode(tree: seq<Shape>, nodes: seq<Node>, t: nat, f: Frame, ch: Choice, n: nat)
    requires CanStep(tree, nodes, t, f, ch) && n < |tree| && f.PropagateLocked?
    ensures NodeOk(tree, Act(tree, nodes, t, f, ch).nodes, n)
  {
    assert NodeOk(tree, nodes, n);
  }

  lemma PendingNode(tree: seq<Shape>, nodes: seq<Node>, t: nat, f: Frame, ch: Choice, n: nat)
    requires CanStep(tree, nodes, t, f, ch) && n < |tree| && (f.Propagate? || f.PropagateCalled?)
    ensures NodeOk(tree, Act(tree, nodes, t, f, ch).nodes, n)
  {
    assert NodeOk(tree, nodes, n);
  }

  lemma PropagateNode(tree: seq<Shape>, nodes: seq<Node>, t: nat, f: Frame, ch: Choice, n: nat)
    requires CanStep(tree, nodes, t, f, ch) && n < |tree| && Propagating(f)
    ensures NodeOk(tree, Act(tree, nodes, t, f, ch).nodes, n)
  {
    hide NodeOk, FrameOk, Resumed, Act;
    if f.PropagateLocked? {
      AddedNode(tree, nodes, t, f, ch, n);
    } else {
      PendingNode(tree, nodes, t, f, ch, n);
    }
  }

  lemma OtherNode(tree: seq<Shape>, nodes: seq<Node>, t: nat, f: Frame, ch: Choice, n: nat)
    requires CanStep(tree, nodes, t, f, ch) && n < |tree| && !Canceling(f) && !Removing(f) && !Propagating(f)
    ensures NodeOk(tree, Act(tree, nodes, t, f, ch).nodes, n)
  {
    assert NodeOk(tree, nodes, n);
  }

  lemma StepNode(tree: seq<Shape>, nodes: seq<Node>, t: nat, f: Frame, ch: Choice, n: nat)
    requires CanStep(tree, nodes, t, f, ch) && n < |tree|
    ensures NodeOk(tree, Act(tree, nodes, t, f, ch).nodes, n)
  {
    hide NodeOk, FrameOk, Resumed, Act;
    if Canceling(f) {
      CancelNode(tree, nodes, t, f, ch, n);
    } else if Removing(f) {
      RemoveNode(tree, nodes, t, f, ch, n);
    } else if Propagating(f) {
      PropagateNode(tree, nodes, t, f, ch, n);
    } else {
      OtherNode(tree, nodes, t, f, ch, n);
    }
  }

  // ----- one step, seen from the stack -----

  lemma LoopFrame(tree: seq<Shape>, nodes: seq<Node>, t: nat, f: Frame, ch: Choice, i: nat)
    requires CanStep(tree, nodes, t, f, ch) && i < |Act(tree, nodes, t, f, ch).frames|
    requires f.CancelLoop? || f.CancelCalled?
    ensures var e := Act(tree, nodes, t, f, ch); FrameOk(tree, e.nodes, t, e.frames[i])
  {
    assert NodeOk(tree, nodes, f.c);
  }

  lemma CancelFrame(tree: seq<Shape>, nodes: seq<Node>, t: nat, f: Frame, ch: Choice, i: nat)
    requires CanStep(tree, nodes, t, f, ch) && i < |Act(tree, nodes, t, f, ch).frames|
    requires Canceling(f) && !f.CancelLoop? && !f.CancelCalled?
    ensures var e := Act(tree, nodes, t, f, ch); FrameOk(tree, e.nodes, t, e.frames[i])
  {
    assert NodeOk(tree, nodes, f.c);
    if Above(tree, f.c).Some? {
      assert NodeOk(tree, nodes, Above(tree, f.c).value);
    }
  }

  lemma RemoveFrame(tree: seq<Shape>, nodes: seq<Node>, t: nat, f: Frame, ch: Choice, i: nat)
    requires CanStep(tree, nodes, t, f, ch) && i < |Act(tree, nodes, t, f, ch).frames| && Removing(f)
    ensures var e := Act(tree, nodes, t, f, ch); FrameOk(tree, e.nodes, t, e.frames[i])
  {
    assert NodeOk(tree, nodes, f.c);
    if Above(tree, f.c).Some? {
      assert NodeOk(tree, nodes, Above(tree, f.c).value);
    }
  }

  lemma PropagateFrame(tree: seq<Shape>, nodes: seq<Node>, t: nat, f: Frame, ch: Choice, i: nat)
    requires CanStep(tree, nodes, t, f, ch) && i < |Act(tree, nodes, t, f, ch).frames| && Propagating(f)
    ensures var e := Act(tree, nodes, t, f, ch); FrameOk(tree, e.nodes, t, e.frames[i])
  {
    assert NodeOk(tree, nodes, f.c);
    if Above(tree, f.c).Some? {
      assert NodeOk(tree, nodes, Above(tree, f.c).value);
    }
  }

  lemma OtherFrame(tree: seq<Shape>, nodes: seq<Node>, t: nat, f: Frame, ch: Choice, i: nat)
    requires CanStep(tree, nodes, t, f, ch) && i < |Act(tree, nodes, t, f, ch).frames|
    requires !Canceling(f) && !Removing(f) && !Propagating(f)
    ensures var e := Act(tree, nodes, t, f, ch); FrameOk(tree, e.nodes, t, e.frames[i])
  {
    assert NodeOk(tree, nodes, f.c);
    if Above(tree, f.c).Some? {
      assert NodeOk(tree, nodes, Above(tree, f.c).value);
    }
  }

  lemma StepFrame(tree: seq<Shape>, nodes: seq<Node>, t: nat, f: Frame, ch: Choice, i: nat)
    requires CanStep(tree, nodes, t, f, ch) && i < |Act(tree, nodes, t, f, ch).frames|
    ensures var e := Act(tree, nodes, t, f, ch); FrameOk(tree, e.nodes, t, e.frames[i])
  {
    hide NodeOk, FrameOk, Resumed, Act;
    if f.CancelLoop? || f.CancelCalled? {
      LoopFrame(tree, nodes, t, f, ch, i);
    } else if Canceling(f) {
      CancelFrame(tree, nodes, t, f, ch, i);
    } else if Removing(f) {
      RemoveFrame(tree, nodes, t, f, ch, i);
    } else if Propagating(f) {
      PropagateFrame(tree, nodes, t, f, ch, i);
    } else {
      OtherFrame(tree, nodes, t, f, ch, i);
    }
  }

  /** What a caller knows when the activation f has returned. */
  ghost predicate Finished(nodes: seq<Node>, f: Frame)
    requires f.c < |nodes|
  {
    if Propagating(f) then !nodes[f.c].pending else nodes[f.c].err.Some?
  }

  /** The new activations fit on the caller of f. */
  lemma StepChain(tree: seq<Shape>, nodes: seq<Node>, t: nat, f: Frame, ch: Choice)
    requires CanStep(tree, nodes, t, f, ch)
    ensures var e := Act(tree, nodes, t, f, ch);
      && |e.frames| <= 2
      && (e.frames == [] ==> Finished(e.nodes, f) || f.Late? || f.Return?)
      && (|e.frames| == 2 ==> Calls(e.frames[0], e.frames[1]))
      && (e.frames != [] ==> Resumed(e.nodes, e.frames[|e.frames| - 1]))
      && (e.frames != [] && !Nested(f) ==> !Nested(e.frames[0]) || e.frames[0].Stop?)
      && (e.frames != [] && (f.Stop? || f.StopLocked?) ==> e.frames[0].StopLocked?)
  {
    assert NodeOk(tree, nodes, f.c);
  }

  lemma CancelStepCalled(tree: seq<Shape>, nodes: seq<Node>, t: nat, f: Frame, ch: Choice, g: Frame)
    requires CanStep(tree, nodes, t, f, ch) && Calls(g, f) && Canceling(f)
    ensures var e := Act(tree, nodes, t, f, ch);
      if e.frames == [] then g.c < |nodes| && FrameOk(tree, nodes, t, g) ==> Resumed(e.nodes, g)
      else Calls(g, e.frames[0])
  {
    assert NodeOk(tree, nodes, f.c);
  }

  lemma OtherStepCalled(tree: seq<Shape>, nodes: seq<Node>, t: nat, f: Frame, ch: Choice, g: Frame)
    requires CanStep(tree, nodes, t, f, ch) && Calls(g, f) && !Canceling(f)
    ensures var e := Act(tree, nodes, t, f, ch);
      if e.frames == [] then g.c < |nodes| && FrameOk(tree, nodes, t, g) ==> Resumed(e.nodes, g)
      else Calls(g, e.frames[0])
  {
    assert NodeOk(tree, nodes, f.c);
  }

  lemma StepCalled(tree: seq<Shape>, nodes: seq<Node>, t: nat, f: Frame, ch: Choice, g: Frame)
    requires CanStep(tree, nodes, t, f, ch) && Calls(g, f)
    ensures var e := Act(tree, nodes, t, f, ch);
      if e.frames == [] then g.c < |nodes| && FrameOk(tree, nodes, t, g) ==> Resumed(e.nodes, g)
      else Calls(g, e.frames[0])
  {
    hide NodeOk, FrameOk, Resumed, Act, Calls;
    if Canceling(f) {
      CancelStepCalled(tree, nodes, t, f, ch, g);
    } else {
      OtherStepCalled(tree, nodes, t, f, ch, g);
    }
  }

  lemma StepLock(tree: seq<Shape>, nodes: seq<Node>, t: nat, f: Frame, ch: Choice, n: nat)
    requires CanStep(tree, nodes, t, f, ch) && n < |nodes|
    ensures var e := Act(tree, nodes, t, f, ch);
      e.nodes[n].owner == Some(t) ==>
        Held(tree, e.frames, n) || (nodes[n].owner == Some(t) && Holds(tree, f) != Some(n))
  {
    var e := Act(tree, nodes, t, f, ch);
    assert NodeOk(tree, nodes, f.c);
    if e.nodes[n].owner == Some(t) && !(nodes[n].owner == Some(t) && Holds(tree, f) != Some(n)) {
      assert e.frames[0].c < |tree| && Holds(tree, e.frames[0]) == Some(n);
    }
  }

  // ----- locks are taken downwards -----

  /** Whatever runs while a lock is held is about a context derived from that lock's. */
  lemma {:induction false} LockOrder(tree: seq<Shape>, nodes: seq<Node>, t: nat, stack: Stack, i: nat, j: nat)
    requires NodesOk(tree, nodes) && FramesOk(tree, nodes, t, stack) && Chained(stack) && i < j < |stack|
    requires Holds(tree, stack[i]).Some?
    ensures Nested(stack[j]) && Holds(tree, stack[i]).value < stack[j].c
    ensures Descends(tree, stack[j].c, Holds(tree, stack[i]).value)
    decreases j
  {
    var h := Holds(tree, stack[i]).value;
    var g, f := stack[j - 1], stack[j];
    assert FrameOk(tree, nodes, t, g) && FrameOk(tree, nodes, t, f);
    assert Calls(stack[j - 1], stack[j - 1 + 1]);
    if g.CancelCalled? {
      assert NodeOk(tree, nodes, g.c);
      AboveIsAncestor(tree, f.c);
    } else if g.PropagateCalled? {
      AboveIsAncestor(tree, g.c);
    }
    if i < j - 1 {
      LockOrder(tree, nodes, t, stack, i, j - 1);
      if g.CancelCalled? {
        DescendsFurther(tree, f.c, g.c, h);
      }
    }
  }

  // ----- one step, seen from the state -----

  /** Goroutine t can take a step. */
  ghost predicate CanRun(s: State, t: nat, ch: Choice) {
    && Grown(s.tree) && |s.tree| == |s.nodes|
    && t < |s.goroutines| && s.goroutines[t] != []
    && var f := s.goroutines[t][|s.goroutines[t]| - 1];
      && f.c < |s.tree| && Enabled(s.tree, s.nodes, f, ch)
      && (f.CancelLoop? ==> forall d :: d in f.rest ==> d < |s.tree|)
  }

  function Top(stack: Stack): Frame
    requires stack != []
  {
    stack[|stack| - 1]
  }

  function Callers(stack: Stack): Stack
    requires stack != []
  {
    stack[..|stack| - 1]
  }

  /** Goroutine t takes a step. */
  ghost function Step(s: State, t: nat, ch: Choice): State
    requires CanRun(s, t, ch)
  {
    var stack := s.goroutines[t];
    var e := Act(s.tree, s.nodes, t, Top(stack), ch);
    State(s.tree, e.nodes, s.goroutines[t := Callers(stack) + e.frames])
  }

  lemma OwnStack(tree: seq<Shape>, nodes: seq<Node>, t: nat, stack: Stack, ch: Choice)
    requires NodesOk(tree, nodes) && stack != [] && StackOk(tree, nodes, t, stack)
    requires CanStep(tree, nodes, t, Top(stack), ch)
    ensures var e := Act(tree, nodes, t, Top(stack), ch); StackOk(tree, e.nodes, t, Callers(stack) + e.frames)
  {
    hide NodeOk, FrameOk, Resumed, Act, Moves, Enabled, Calls, Nested;
    FrameShape(tree, nodes, t, Top(stack));
    var f, e, lower := Top(stack), Act(tree, nodes, t, Top(stack), ch), Callers(stack);
    var after := lower + e.frames;
    StepMoves(tree, nodes, t, f, ch);
    StepChain(tree, nodes, t, f, ch);
    MovesShape(tree, nodes, e.nodes, t, f);
    forall i: nat | i < |after| ensures FrameOk(tree, e.nodes, t, after[i]) {
      if i < |lower| {
        CallerKept(tree, nodes, t, stack, ch, i);
      } else {
        StepFrame(tree, nodes, t, f, ch, i - |lower|);
      }
    }
    if lower != [] {
      var g := lower[|lower| - 1];
      assert Calls(stack[|lower| - 1], stack[|lower| - 1 + 1]);
      FrameShape(tree, nodes, t, g);
      StepCalled(tree, nodes, t, f, ch, g);
    }
    forall i: nat | i + 1 < |after| ensures Calls(after[i], after[i + 1]) {
      if i + 1 < |lower| {
        assert Calls(stack[i], stack[i + 1]);
      }
    }
  }

  lemma MovesShape(tree: seq<Shape>, a: seq<Node>, b: seq<Node>, t: nat, f: Frame)
    requires Grown(tree) && f.c < |tree| && Moves(tree, a, b, t, f)
    ensures |a| == |b| == |tree|
  {
  }

  lemma FrameShape(tree: seq<Shape>, nodes: seq<Node>, t: nat, f: Frame)
    requires Grown(tree) && |tree| == |nodes| && FrameOk(tree, nodes, t, f)
    ensures f.c < |tree|
  {
  }

  lemma CallerKept(tree: seq<Shape>, nodes: seq<Node>, t: nat, stack: Stack, ch: Choice, i: nat)
    requires NodesOk(tree, nodes) && StackOk(tree, nodes, t, stack) && i + 1 < |stack|
    requires CanStep(tree, nodes, t, Top(stack), ch)
    ensures FrameOk(tree, Act(tree, nodes, t, Top(stack), ch).nodes, t, stack[i])
  {
    hide NodeOk, Resumed, Act, Moves, Enabled;
    var f, e := Top(stack), Act(tree, nodes, t, Top(stack), ch);
    StepMoves(tree, nodes, t, f, ch);
    if Holds(tree, stack[i]).Some? {
      LockOrder(tree, nodes, t, stack, i, |stack| - 1);
    }
    CallerIs(stack, i);
    FrameKept(tree, nodes, e.nodes, t, f, t, stack[i]);
  }

  /** An activation that has called another one is at a call. */
  lemma CallerIs(stack: Stack, i: nat)
    requires Chained(stack) && i + 1 < |stack|
    ensures var f := stack[i];
      f.CancelCalled? || f.TimerCanceled? || f.PropagateCalled? || f.Deadlined? || f.Return? || f.Late?
    ensures stack[i].PropagateCalled? ==> Nested(stack[i + 1])
  {
    assert Calls(stack[i], stack[i + 1]);
  }

  lemma OtherStack(tree: seq<Shape>, a: seq<Node>, b: seq<Node>, t: nat, f: Frame, u: nat, stack: Stack)
    requires Grown(tree) && f.c < |tree| && Moves(tree, a, b, t, f) && u != t && StackOk(tree, a, u, stack)
    ensures StackOk(tree, b, u, stack)
  {
    hide FrameOk, Resumed, Moves, Calls, Nested;
    MovesShape(tree, a, b, t, f);
    forall i: nat | i < |stack| ensures FrameOk(tree, b, u, stack[i]) {
      FrameKept(tree, a, b, t, f, u, stack[i]);
    }
    if stack != [] {
      FrameShape(tree, a, u, Top(stack));
      ResumedKept(tree, a, b, t, f, Top(stack));
    }
  }

  // ----- children that are about to be removed -----

  lemma StaleCanceling(tree: seq<Shape>, nodes: seq<Node>, t: nat, f: Frame, ch: Choice, p: nat, c: nat)
    requires CanStep(tree, nodes, t, f, ch) && p < |nodes| && c < |nodes| && Canceling(f)
    requires Stale(Act(tree, nodes, t, f, ch).nodes, p, c)
    ensures nodes[p].err.None? && c in nodes[p].children
    ensures Stale(nodes, p, c) || (f.CancelLocked? && f.c == c && nodes[c].err.None?)
  {
    hide NodeOk;
  }

  lemma StaleOtherwise(tree: seq<Shape>, nodes: seq<Node>, t: nat, f: Frame, ch: Choice, p: nat, c: nat)
    requires CanStep(tree, nodes, t, f, ch) && p < |nodes| && c < |nodes| && !Canceling(f)
    requires Stale(Act(tree, nodes, t, f, ch).nodes, p, c)
    ensures Stale(nodes, p, c)
  {
    hide NodeOk;
  }

  lemma StaleRemoval(tree: seq<Shape>, nodes: seq<Node>, t: nat, f: Frame, ch: Choice, p: nat, c: nat)
    requires CanStep(tree, nodes, t, f, ch) && p < |nodes| && c < |nodes| && Above(tree, c) == Some(p)
    requires Stale(Act(tree, nodes, t, f, ch).nodes, p, c) && WillRemove(f, c)
    ensures var e := Act(tree, nodes, t, f, ch); e.frames != [] && WillRemove(e.frames[0], c)
  {
    hide NodeOk;
  }

  /** A step that leaves c canceled in the children of a context that is not canceled follows one that did, or is the
      one that cancels c. */
  lemma StaleBefore(tree: seq<Shape>, nodes: seq<Node>, t: nat, f: Frame, ch: Choice, p: nat, c: nat)
    requires CanStep(tree, nodes, t, f, ch) && p < |nodes| && c < |nodes|
    requires Stale(Act(tree, nodes, t, f, ch).nodes, p, c)
    ensures nodes[p].err.None? && c in nodes[p].children
    ensures Stale(nodes, p, c) || (f.CancelLocked? && f.c == c && nodes[c].err.None?)
    ensures WillRemove(f, c) ==> exists i: nat :: i < |Act(tree, nodes, t, f, ch).frames|
                                             && WillRemove(Act(tree, nodes, t, f, ch).frames[i], c)
  {
    hide Act, FrameOk, Enabled, Resumed, Moves;
    if Canceling(f) {
      StaleCanceling(tree, nodes, t, f, ch, p, c);
    } else {
      StaleOtherwise(tree, nodes, t, f, ch, p, c);
    }
    assert NodeOk(tree, nodes, p);
    if WillRemove(f, c) {
      StaleRemoval(tree, nodes, t, f, ch, p, c);
    }
  }

  /** Whoever cancels c will remove it, unless c is not among its parent's children or the parent is canceled, too. */
  lemma Canceler(tree: seq<Shape>, nodes: seq<Node>, t: nat, stack: Stack, p: nat)
    requires NodesOk(tree, nodes) && stack != [] && StackOk(tree, nodes, t, stack) && Top(stack).CancelLocked?
    requires Top(stack).c < |nodes| && p < |nodes| && nodes[p].err.None? && Top(stack).c in nodes[p].children
    ensures Top(stack).remove || exists i: nat :: i + 1 < |stack| && WillRemove(stack[i], Top(stack).c)
  {
    var f, k := Top(stack), |stack| - 1;
    assert NodeOk(tree, nodes, p);
    if !f.remove {
      assert k > 0;
      var g := stack[k - 1];
      assert Calls(stack[k - 1], stack[k - 1 + 1]) && FrameOk(tree, nodes, t, g);
      if g.CancelCalled? {
        CalledByParent(tree, nodes, t, g, p, f.c);
      } else if g.TimerCanceled? {
        if g.remove {
          assert WillRemove(stack[k - 1], f.c);
        } else {
          assert k - 1 > 0;
          var h := stack[k - 2];
          assert Calls(stack[k - 2], stack[k - 2 + 1]) && FrameOk(tree, nodes, t, h);
          CalledByParent(tree, nodes, t, h, p, f.c);
        }
      }
    }
  }

  /** The loop over the children of a context that is not canceled is never run. */
  lemma CalledByParent(tree: seq<Shape>, nodes: seq<Node>, t: nat, g: Frame, p: nat, c: nat)
    requires NodesOk(tree, nodes) && FrameOk(tree, nodes, t, g)
    requires p < |nodes| && nodes[p].err.None? && c in nodes[p].children
    ensures !(g.CancelCalled? && g.child == c) && !(g.PropagateCalled? && g.c == c)
  {
    assert NodeOk(tree, nodes, p) && NodeOk(tree, nodes, g.c);
  }
}
