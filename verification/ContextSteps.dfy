/**
 * The operations of context/context.go, run by any number of goroutines at once. Between two steps of one goroutine the
 * others may take any number of steps; what happens under a lock in one step touches only what that lock protects.
 */
module ContextSteps {
  import opened Options
  import opened ContextTree

  /** What changes about a context. The mutex's owner is a goroutine; pending is true until propagateCancel is done
      with the context, and ready once the function that made the context has returned it. */
  datatype Node = Node(owner: Option<nat>, err: Option<Error>, closed: bool, children: set<nat>, timer: bool,
                       pending: bool, ready: bool)

  /** An activation of a function, named after what it does next, for the context c. */
  datatype Frame =
    // cancelCtx.cancel
    | Cancel(c: nat, remove: bool, error: Error)
    | CancelLocked(c: nat, remove: bool, error: Error)
    | CancelClose(c: nat, remove: bool, error: Error)
    | CancelLoop(c: nat, remove: bool, error: Error, rest: set<nat>)
    | CancelCalled(c: nat, remove: bool, error: Error, rest: set<nat>, child: nat)
    // timerCtx.cancel
    | TimerCancel(c: nat, remove: bool, error: Error)
    | TimerCanceled(c: nat, remove: bool)
    | Stop(c: nat)
    | StopLocked(c: nat)
    // removeChild, and then the rest of timerCtx.cancel or nothing
    | Remove(c: nat, stop: bool)
    | RemoveLocked(c: nat, stop: bool)
    // propagateCancel
    | Propagate(c: nat)
    | PropagateLocked(c: nat)
    | PropagateCalled(c: nat)
    // WithCancel and WithDeadline
    | Deadlined(c: nat)
    | StartTimer(c: nat)
    | StartTimerLocked(c: nat)
    | Late(c: nat)
    | Return(c: nat)

  type Stack = seq<Frame>

  datatype State = State(tree: seq<Shape>, nodes: seq<Node>, goroutines: seq<Stack>)

  /** The child that a loop over children takes next, and whether a deadline has passed. */
  datatype Choice = Choice(child: nat, late: bool)

  datatype Effect = Effect(nodes: seq<Node>, frames: Stack)

  // ----- locks -----

  /** The lock that an activation holds. */
  function Holds(tree: seq<Shape>, f: Frame): Option<nat>
    requires Grown(tree) && f.c < |tree|
  {
    match f
    case CancelLocked(c, _, _) => Some(c)
    case CancelClose(c, _, _) => Some(c)
    case CancelLoop(c, _, _, _) => Some(c)
    case CancelCalled(c, _, _, _, _) => Some(c)
    case StopLocked(c) => Some(c)
    case StartTimerLocked(c) => Some(c)
    case RemoveLocked(c, _) => Above(tree, c)
    case PropagateLocked(c) => Above(tree, c)
    case PropagateCalled(c) => Above(tree, c)
    case _ => None
  }

  /** The lock that an activation has to take before it goes on. */
  function Wants(tree: seq<Shape>, f: Frame): Option<nat>
    requires Grown(tree) && f.c < |tree|
  {
    match f
    case Cancel(c, _, _) => Some(c)
    case Stop(c) => Some(c)
    case StartTimer(c) => Some(c)
    case Remove(c, _) => Above(tree, c)
    case Propagate(c) => Above(tree, c)
    case _ => None
  }

  ghost predicate Enabled(tree: seq<Shape>, nodes: seq<Node>, f: Frame, ch: Choice)
    requires Grown(tree) && |tree| == |nodes| && f.c < |tree|
  {
    && (Wants(tree, f).Some? ==> nodes[Wants(tree, f).value].owner.None?)
    && (f.CancelLoop? && f.rest != {} ==> ch.child in f.rest)
  }

  // ----- steps -----

  function Lock(nodes: seq<Node>, n: nat, t: nat): seq<Node>
    requires n < |nodes|
  {
    nodes[n := nodes[n].(owner := Some(t))]
  }

  function Unlock(nodes: seq<Node>, n: nat): seq<Node>
    requires n < |nodes|
  {
    nodes[n := nodes[n].(owner := None)]
  }

  /** The canceler's cancel method. */
  function CancelOf(tree: seq<Shape>, c: nat, remove: bool, error: Error): Frame
    requires c < |tree|
  {
    if tree[c].kind.TimerCtx? then TimerCancel(c, remove, error) else Cancel(c, remove, error)
  }

  /** What follows removeChild. */
  function AfterRemove(c: nat, stop: bool): Stack {
    if stop then [Stop(c)] else []
  }

  /** What goroutine t does with the activation f on top of its stack. */
  function Act(tree: seq<Shape>, nodes: seq<Node>, t: nat, f: Frame, ch: Choice): Effect
    requires Grown(tree) && |tree| == |nodes| && f.c < |tree| && Enabled(tree, nodes, f, ch)
    requires f.CancelLoop? ==> forall d :: d in f.rest ==> d < |tree|
  {
    match f
    case Cancel(c, remove, error) => Effect(Lock(nodes, c, t), [CancelLocked(c, remove, error)])
    case CancelLocked(c, remove, error) =>
      if nodes[c].err.Some? then Effect(Unlock(nodes, c), [])
      else Effect(nodes[c := nodes[c].(err := Some(error))], [CancelClose(c, remove, error)])
    case CancelClose(c, remove, error) =>
      Effect(nodes[c := nodes[c].(closed := true)], [CancelLoop(c, remove, error, nodes[c].children)])
    case CancelLoop(c, remove, error, rest) =>
      if rest == {} then
        Effect(nodes[c := nodes[c].(children := {}, owner := None)], if remove then [Remove(c, false)] else [])
      else Effect(nodes, [CancelCalled(c, remove, error, rest, ch.child), CancelOf(tree, ch.child, false, error)])
    case CancelCalled(c, remove, error, rest, child) =>
      Effect(nodes, [CancelLoop(c, remove, error, rest - {child})])
    case TimerCancel(c, remove, error) => Effect(nodes, [TimerCanceled(c, remove), Cancel(c, false, error)])
    case TimerCanceled(c, remove) => Effect(nodes, [if remove then Remove(c, true) else Stop(c)])
    case Stop(c) => Effect(Lock(nodes, c, t), [StopLocked(c)])
    case StopLocked(c) => Effect(nodes[c := nodes[c].(timer := false, owner := None)], [])
    case Remove(c, stop) =>
      (match Above(tree, c)
       case None => Effect(nodes, AfterRemove(c, stop))
       case Some(p) => Effect(Lock(nodes, p, t), [RemoveLocked(c, stop)]))
    case RemoveLocked(c, stop) =>
      (match Above(tree, c)
       case None => Effect(nodes, [])
       case Some(p) =>
         Effect(nodes[p := nodes[p].(children := nodes[p].children - {c}, owner := None)], AfterRemove(c, stop)))
    case Propagate(c) =>
      (match Above(tree, c)
       case None => Effect(nodes[c := nodes[c].(pending := false)], [])
       case Some(p) => Effect(Lock(nodes, p, t), [PropagateLocked(c)]))
    case PropagateLocked(c) =>
      (match Above(tree, c)
       case None => Effect(nodes, [])
       case Some(p) =>
         if nodes[p].err.Some? then Effect(nodes, [PropagateCalled(c), CancelOf(tree, c, false, nodes[p].err.value)])
         else
           Effect(nodes[p := nodes[p].(children := nodes[p].children + {c}, owner := None)]
                       [c := nodes[c].(pending := false)], []))
    case PropagateCalled(c) =>
      (match Above(tree, c)
       case None => Effect(nodes, [])
       case Some(p) => Effect(Unlock(nodes, p)[c := nodes[c].(pending := false)], []))
    case Deadlined(c) =>
      Effect(nodes, if ch.late then [Late(c), TimerCancel(c, true, DeadlineExceeded)] else [StartTimer(c)])
    case StartTimer(c) => Effect(Lock(nodes, c, t), [StartTimerLocked(c)])
    case StartTimerLocked(c) =>
      Effect(nodes[c := nodes[c].(timer := nodes[c].timer || nodes[c].err.None?, owner := None)], [Return(c)])
    case Late(c) => Effect(nodes[c := nodes[c].(ready := true)], [])
    case Return(c) => Effect(nodes[c := nodes[c].(ready := true)], [])
  }
}
