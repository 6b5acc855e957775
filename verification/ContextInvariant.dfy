/** What holds between any two steps of any goroutines. */
module ContextInvariant {
  import opened Options
  import opened ContextTree
  import opened ContextSteps

  // ----- contexts -----

  /** A context that is canceled, and whose cancel call has passed that on, or one that is not canceled. */
  ghost predicate Settled(n: Node) {
    if n.err.Some? then n.closed && n.children == {} else !n.closed
  }

  ghost predicate NodeOk(tree: seq<Shape>, nodes: seq<Node>, c: nat)
    requires Grown(tree) && |tree| == |nodes| && c < |tree|
  {
    var n, p := nodes[c], Above(tree, c);
    && (n.owner.None? ==> Settled(n))
    && (n.closed ==> n.err.Some?)
    && (forall d :: d in n.children ==>
          d < |tree| && Above(tree, d) == Some(c) && !nodes[d].pending && Cancellable(tree, d))
    && (p.Some? && n.err.None? && !n.pending && Cancellable(tree, c) ==> c in nodes[p.value].children)
    && (n.timer ==> tree[c].kind.TimerCtx?)
    && (n.ready || n.timer ==> !n.pending)
    && (!Cancellable(tree, c) ==> !n.pending && n.err.None? && n.children == {} && n.owner.None?)
  }

  ghost predicate NodesOk(tree: seq<Shape>, nodes: seq<Node>) {
    && Grown(tree) && |tree| == |nodes|
    && forall c: nat :: c < |tree| ==> NodeOk(tree, nodes, c)
  }

  // ----- activations -----

  /** The part of canceling a context that its parent's cancel call does, too: its parent is left alone. */
  predicate Nested(f: Frame) {
    match f
    case Cancel(_, remove, _) => !remove
    case CancelLocked(_, remove, _) => !remove
    case CancelClose(_, remove, _) => !remove
    case CancelLoop(_, remove, _, _) => !remove
    case CancelCalled(_, remove, _, _, _) => !remove
    case TimerCancel(_, remove, _) => !remove
    case TimerCanceled(_, remove) => !remove
    case Stop(_) => true
    case StopLocked(_) => true
    case _ => false
  }

  /** Whether f is cancelCtx.cancel. */
  predicate Canceling(f: Frame) {
    f.Cancel? || f.CancelLocked? || f.CancelClose? || f.CancelLoop? || f.CancelCalled?
  }

  /** Whether f is timerCtx.cancel. */
  predicate TimerCanceling(f: Frame) {
    f.TimerCancel? || f.TimerCanceled? || f.Stop? || f.StopLocked? || ((f.Remove? || f.RemoveLocked?) && f.stop)
  }

  predicate Removing(f: Frame) {
    f.Remove? || f.RemoveLocked?
  }

  predicate Propagating(f: Frame) {
    f.Propagate? || f.PropagateLocked? || f.PropagateCalled?
  }

  /** Which activation may call which. */
  ghost predicate Calls(f: Frame, g: Frame) {
    match f
    case CancelCalled(_, _, _, _, child) => Nested(g) && g.c == child
    case PropagateCalled(c) => Nested(g) && g.c == c
    case TimerCanceled(c, _) => Nested(g) && Canceling(g) && g.c == c
    case Late(c) => TimerCanceling(g) && g.c == c && (g.TimerCancel? || g.TimerCanceled? ==> g.remove)
    case Deadlined(c) => Propagating(g) && g.c == c
    case Return(c) => Propagating(g) && g.c == c
    case _ => false
  }

  /** What an activation of goroutine t knows while it lasts. */
  ghost predicate FrameOk(tree: seq<Shape>, nodes: seq<Node>, t: nat, f: Frame)
    requires Grown(tree) && |tree| == |nodes|
  {
    && f.c < |tree| && Cancellable(tree, f.c)
    && (nodes[f.c].pending ==> tree[f.c].creator == t)
    && (Holds(tree, f).Some? ==> nodes[Holds(tree, f).value].owner == Some(t))
    && match f
       case Cancel(c, remove, _) => remove ==> !nodes[c].pending
       case CancelLocked(c, remove, _) => Settled(nodes[c]) && (remove ==> !nodes[c].pending)
       case CancelClose(c, remove, _) =>
         nodes[c].err.Some? && !nodes[c].closed && (remove ==> !nodes[c].pending)
       case CancelLoop(c, remove, _, rest) =>
         && nodes[c].err.Some? && nodes[c].closed && (remove ==> !nodes[c].pending)
         && rest <= nodes[c].children && AllCanceled(nodes, nodes[c].children - rest)
       case CancelCalled(c, remove, _, rest, child) =>
         && nodes[c].err.Some? && nodes[c].closed && (remove ==> !nodes[c].pending)
         && rest <= nodes[c].children && AllCanceled(nodes, nodes[c].children - rest)
         && child in rest
       case TimerCancel(c, remove, _) => tree[c].kind.TimerCtx? && (remove ==> !nodes[c].pending)
       case TimerCanceled(c, remove) => tree[c].kind.TimerCtx? && (remove ==> !nodes[c].pending)
       case Stop(c) => nodes[c].err.Some? && tree[c].kind.TimerCtx?
       case StopLocked(c) => nodes[c].err.Some? && Settled(nodes[c])
       case Remove(c, stop) => nodes[c].err.Some? && !nodes[c].pending && (stop ==> tree[c].kind.TimerCtx?)
       case RemoveLocked(c, stop) =>
         && nodes[c].err.Some? && !nodes[c].pending && (stop ==> tree[c].kind.TimerCtx?)
         && Above(tree, c).Some? && Settled(nodes[Above(tree, c).value])
       case Propagate(c) => nodes[c].pending && nodes[c].err.None?
       case PropagateLocked(c) =>
         && nodes[c].pending && nodes[c].err.None?
         && Above(tree, c).Some? && Settled(nodes[Above(tree, c).value])
       case PropagateCalled(c) =>
         && nodes[c].pending
         && Above(tree, c).Some? && Settled(nodes[Above(tree, c).value]) && nodes[Above(tree, c).value].err.Some?
       case Deadlined(c) => tree[c].kind.TimerCtx?
       case StartTimer(c) => tree[c].kind.TimerCtx? && !nodes[c].pending
       case StartTimerLocked(c) => tree[c].kind.TimerCtx? && !nodes[c].pending && Settled(nodes[c])
       case Late(c) => !nodes[c].pending
       case Return(c) => true
  }

  ghost predicate AllCanceled(nodes: seq<Node>, s: set<nat>) {
    forall d :: d in s ==> d < |nodes| && nodes[d].err.Some?
  }

  /** What an activation knows in addition when the one it called has returned. */
  ghost predicate Resumed(nodes: seq<Node>, f: Frame)
    requires f.c < |nodes|
  {
    match f
    case CancelCalled(_, _, _, _, child) => child < |nodes| && nodes[child].err.Some?
    case TimerCanceled(c, _) => nodes[c].err.Some?
    case PropagateCalled(c) => nodes[c].err.Some?
    case Deadlined(c) => !nodes[c].pending
    case Return(c) => !nodes[c].pending
    case _ => true
  }

  ghost predicate FramesOk(tree: seq<Shape>, nodes: seq<Node>, t: nat, stack: Stack)
    requires Grown(tree) && |tree| == |nodes|
  {
    forall i: nat :: i < |stack| ==> FrameOk(tree, nodes, t, stack[i])
  }

  /** Each activation was called by the one below it; the lowest one was called by the program or by a timer. */
  ghost predicate Chained(stack: Stack) {
    && (stack != [] ==> !Nested(stack[0]) || stack[0].Stop? || stack[0].StopLocked?)
    && forall i: nat :: i + 1 < |stack| ==> Calls(stack[i], stack[i + 1])
  }

  ghost predicate StackOk(tree: seq<Shape>, nodes: seq<Node>, t: nat, stack: Stack)
    requires Grown(tree) && |tree| == |nodes|
  {
    && FramesOk(tree, nodes, t, stack) && Chained(stack)
    && (stack != [] ==> Resumed(nodes, stack[|stack| - 1]))
  }

  /** Whether the activation will take c from its parent's children. */
  predicate WillRemove(f: Frame, c: nat) {
    f.c == c && (Removing(f) || ((f.CancelClose? || f.CancelLoop? || f.CancelCalled? || f.TimerCanceled?) && f.remove))
  }

  ghost predicate Held(tree: seq<Shape>, stack: Stack, n: nat)
    requires Grown(tree)
  {
    exists i: nat :: i < |stack| && stack[i].c < |tree| && Holds(tree, stack[i]) == Some(n)
  }

  ghost predicate WillBeRemoved(s: State, c: nat) {
    exists t: nat, i: nat :: t < |s.goroutines| && i < |s.goroutines[t]| && WillRemove(s.goroutines[t][i], c)
  }

  // ----- the invariant -----

  ghost predicate StacksOk(s: State)
    requires Grown(s.tree) && |s.tree| == |s.nodes|
  {
    forall t: nat :: t < |s.goroutines| ==> StackOk(s.tree, s.nodes, t, s.goroutines[t])
  }

  /** A lock is held by the goroutine that an activation holds it in. */
  ghost predicate OwnersOk(s: State)
    requires Grown(s.tree) && |s.tree| == |s.nodes|
  {
    forall n: nat :: n < |s.nodes| && s.nodes[n].owner.Some? ==>
      var t := s.nodes[n].owner.value; t < |s.goroutines| && Held(s.tree, s.goroutines[t], n)
  }

  ghost predicate InPropagate(stack: Stack, c: nat) {
    exists i: nat :: i < |stack| && Propagating(stack[i]) && stack[i].c == c
  }

  /** The goroutine that made a context is in propagateCancel until the context is no longer pending. */
  ghost predicate PendingOk(s: State)
    requires |s.tree| == |s.nodes|
  {
    forall c: nat :: c < |s.nodes| && s.nodes[c].pending ==>
      s.tree[c].creator < |s.goroutines| && InPropagate(s.goroutines[s.tree[c].creator], c)
  }

  ghost predicate Stale(nodes: seq<Node>, p: nat, c: nat)
    requires p < |nodes| && c < |nodes|
  {
    nodes[p].err.None? && c in nodes[p].children && nodes[c].err.Some?
  }

  /** A canceled child of a context that is not canceled is about to be removed. */
  ghost predicate ChildrenOk(s: State)
    requires Grown(s.tree) && |s.tree| == |s.nodes|
  {
    forall p: nat, c: nat :: p < |s.nodes| && c < |s.nodes| && Stale(s.nodes, p, c) ==> WillBeRemoved(s, c)
  }

  ghost predicate Inv(s: State) {
    && NodesOk(s.tree, s.nodes) && Timely(s.tree) && StacksOk(s) && OwnersOk(s) && PendingOk(s)
    && ChildrenOk(s)
  }
}