/** Where the error of a canceled context comes from. */
module ContextErrors {
  import opened Options
  import opened ContextTree
  import opened ContextSteps
  import opened ContextInvariant
  import opened ContextProof
  import opened ContextRuns
  import opened ContextSafety

  ghost predicate AtOrBelow(tree: seq<Shape>, c: nat, a: nat)
    requires Grown(tree) && c < |tree|
  {
    c == a || Descends(tree, c, a)
  }

  /** In r the event is the step of WithDeadline that finds the deadline of a over. */
  ghost predicate FindsLate(r: State, e: Event, a: nat) {
    e.Stepped? && CanRun(r, e.goroutine, e.ch) && Top(r.goroutines[e.goroutine]) == Deadlined(a) && e.ch.late
  }

  /** At some point of the run it is taken. */
  ghost predicate WasLate(run: seq<Event>, a: nat) {
    exists i: nat, r :: i < |run| && Leads(INITIAL, run[..i], r) && FindsLate(r, run[i], a)
  }

  /** What gives a and everything below it this error: a call of its cancel function, or the end of its deadline, which
      its timer or WithDeadline itself has noticed. */
  ghost predicate Cause(run: seq<Event>, tree: seq<Shape>, a: nat, error: Error)
    requires a < |tree|
  {
    match error
    case Canceled => Called(CancelFunc(a)) in run
    case DeadlineExceeded => tree[a].kind.TimerCtx? && (Called(Fire(a)) in run || WasLate(run, a))
  }

  ghost predicate Sourced(run: seq<Event>, tree: seq<Shape>, c: nat, error: Error)
    requires Grown(tree) && c < |tree|
  {
    exists a: nat :: a < |tree| && AtOrBelow(tree, c, a) && Cause(run, tree, a, error)
  }

  /** The error that an activation is about to pass on. */
  function Carried(f: Frame): Option<Error> {
    match f
    case Cancel(_, _, error) => Some(error)
    case CancelLocked(_, _, error) => Some(error)
    case CancelClose(_, _, error) => Some(error)
    case CancelLoop(_, _, error, _) => Some(error)
    case CancelCalled(_, _, error, _, _) => Some(error)
    case TimerCancel(_, _, error) => Some(error)
    case _ => None
  }

  ghost predicate NodesSourced(run: seq<Event>, tree: seq<Shape>, nodes: seq<Node>)
    requires Grown(tree) && |tree| == |nodes|
  {
    forall c: nat :: c < |nodes| && nodes[c].err.Some? ==> Sourced(run, tree, c, nodes[c].err.value)
  }

  ghost predicate FrameSourced(run: seq<Event>, tree: seq<Shape>, f: Frame)
    requires Grown(tree)
  {
    Carried(f).Some? ==> f.c < |tree| && Sourced(run, tree, f.c, Carried(f).value)
  }

  ghost predicate FramesSourced(run: seq<Event>, tree: seq<Shape>, stack: Stack)
    requires Grown(tree)
  {
    forall i :: 0 <= i < |stack| ==> FrameSourced(run, tree, stack[i])
  }

  ghost predicate AllSourced(run: seq<Event>, s: State)
    requires Grown(s.tree) && |s.tree| == |s.nodes|
  {
    && NodesSourced(run, s.tree, s.nodes)
    && forall t :: 0 <= t < |s.goroutines| ==> FramesSourced(run, s.tree, s.goroutines[t])
  }

  // ----- causes stay -----

  lemma {:induction false} DescendsGrows(tree: seq<Shape>, tree': seq<Shape>, c: nat, a: nat)
    requires Grown(tree) && Grown(tree') && tree <= tree' && c < |tree| && Descends(tree, c, a)
    ensures Descends(tree', c, a)
    decreases c
  {
    assert tree'[c] == tree[c];
    if tree[c].parent.value != a {
      DescendsGrows(tree, tree', tree[c].parent.value, a);
    }
  }

  lemma LateStays(run: seq<Event>, run': seq<Event>, a: nat)
    requires run <= run' && WasLate(run, a)
    ensures WasLate(run', a)
  {
    var i: nat, r :| i < |run| && Leads(INITIAL, run[..i], r) && FindsLate(r, run[i], a);
    assert run'[..i] == run[..i];
  }

  lemma SourceStays(run: seq<Event>, run': seq<Event>, tree: seq<Shape>, tree': seq<Shape>, c: nat, error: Error)
    requires run <= run' && Grown(tree) && Grown(tree') && tree <= tree' && c < |tree| && Sourced(run, tree, c, error)
    ensures Sourced(run', tree', c, error)
  {
    hide WasLate, Descends;
    var a: nat :| a < |tree| && AtOrBelow(tree, c, a) && Cause(run, tree, a, error);
    if c != a {
      DescendsGrows(tree, tree', c, a);
    }
    assert tree'[a] == tree[a];
    if WasLate(run, a) {
      LateStays(run, run', a);
    }
    assert Cause(run', tree', a, error);
  }

  /** What has a cause has it for everything derived from it, too. */
  lemma SourceBelow(run: seq<Event>, tree: seq<Shape>, c: nat, d: nat, error: Error)
    requires Grown(tree) && c < |tree| && d < |tree| && Descends(tree, d, c) && Sourced(run, tree, c, error)
    ensures Sourced(run, tree, d, error)
  {
    hide Cause;
    var a: nat :| a < |tree| && AtOrBelow(tree, c, a) && Cause(run, tree, a, error);
    if c != a {
      DescendsFurther(tree, d, c, a);
    }
  }

  lemma OwnSource(run: seq<Event>, tree: seq<Shape>, c: nat, error: Error)
    requires Grown(tree) && c < |tree| && Cause(run, tree, c, error)
    ensures Sourced(run, tree, c, error)
  {
    assert AtOrBelow(tree, c, c);
  }

  // ----- steps -----

  lemma ActNodes(run: seq<Event>, tree: seq<Shape>, nodes: seq<Node>, t: nat, f: Frame, ch: Choice)
    requires CanStep(tree, nodes, t, f, ch) && NodesSourced(run, tree, nodes) && FrameSourced(run, tree, f)
    ensures |Act(tree, nodes, t, f, ch).nodes| == |tree| && NodesSourced(run, tree, Act(tree, nodes, t, f, ch).nodes)
  {
    hide Sourced, NodeOk, Resumed;
  }

  lemma ActFrames(run: seq<Event>, tree: seq<Shape>, nodes: seq<Node>, t: nat, f: Frame, ch: Choice)
    requires CanStep(tree, nodes, t, f, ch) && NodesSourced(run, tree, nodes) && FrameSourced(run, tree, f)
    requires f.Deadlined? && ch.late ==> Cause(run, tree, f.c, DeadlineExceeded)
    ensures FramesSourced(run, tree, Act(tree, nodes, t, f, ch).frames)
  {
    hide Sourced, Resumed, NodeOk, Cause;
    if f.CancelLoop? && f.rest != {} {
      CalledChild(tree, nodes, t, f, ch);
      SourceBelow(run, tree, f.c, ch.child, f.error);
    } else if f.PropagateLocked? && Above(tree, f.c).Some? {
      AboveIsAncestor(tree, f.c);
      var p := Above(tree, f.c).value;
      if nodes[p].err.Some? {
        SourceBelow(run, tree, p, f.c, nodes[p].err.value);
      }
    } else if f.Deadlined? && ch.late {
      OwnSource(run, tree, f.c, DeadlineExceeded);
    }
  }

  lemma CalledChild(tree: seq<Shape>, nodes: seq<Node>, t: nat, f: Frame, ch: Choice)
    requires CanStep(tree, nodes, t, f, ch) && f.CancelLoop? && f.rest != {}
    ensures ch.child < |tree| && Descends(tree, ch.child, f.c)
  {
    assert NodeOk(tree, nodes, f.c);
    AboveIsAncestor(tree, ch.child);
  }

  lemma StepSourced(run: seq<Event>, s: State, t: nat, ch: Choice)
    requires Inv(s) && CanRun(s, t, ch) && AllSourced(run, s) && Leads(INITIAL, run, s)
    ensures var r := Step(s, t, ch); |r.tree| == |r.nodes| && AllSourced(run + [Stepped(t, ch)], r)
  {
    hide Inv, Act, NodesSourced, FrameSourced, Enabled, Cause;
    TopCanStep(s, t, ch);
    var stack, r, run' := s.goroutines[t], Step(s, t, ch), run + [Stepped(t, ch)];
    var f, e := Top(stack), Act(s.tree, s.nodes, t, Top(stack), ch);
    StateStays(run, run', s.tree, s.tree, s);
    if f.Deadlined? && ch.late {
      LateNow(run, s, t, ch);
    }
    assert FramesSourced(run', s.tree, stack);
    assert FrameSourced(run', s.tree, f);
    ActNodes(run', s.tree, s.nodes, t, f, ch);
    ActFrames(run', s.tree, s.nodes, t, f, ch);
    assert FramesSourced(run', s.tree, Callers(stack) + e.frames);
  }

  /** The step that finds a deadline over is the cause itself. */
  lemma LateNow(run: seq<Event>, s: State, t: nat, ch: Choice)
    requires Inv(s) && CanRun(s, t, ch) && Leads(INITIAL, run, s)
    requires Top(s.goroutines[t]).Deadlined? && ch.late
    ensures Top(s.goroutines[t]).c < |s.tree|
    ensures Cause(run + [Stepped(t, ch)], s.tree, Top(s.goroutines[t]).c, DeadlineExceeded)
  {
    hide Leads;
    var e, f := Stepped(t, ch), Top(s.goroutines[t]);
    var run' := run + [e];
    assert StackOk(s.tree, s.nodes, t, s.goroutines[t]) && FrameOk(s.tree, s.nodes, t, f);
    assert f == Deadlined(f.c);
    assert run'[..|run|] == run && run'[|run|] == e && FindsLate(s, e, f.c);
    assert WasLate(run', f.c);
  }

  lemma StateStays(run: seq<Event>, run': seq<Event>, tree: seq<Shape>, tree': seq<Shape>, s: State)
    requires run <= run' && Grown(tree) && Grown(tree') && tree <= tree' && s.tree == tree && |s.nodes| == |tree|
    requires AllSourced(run, s)
    ensures forall c: nat :: c < |s.nodes| && s.nodes[c].err.Some? ==> Sourced(run', tree', c, s.nodes[c].err.value)
    ensures tree' == tree ==> NodesSourced(run', tree', s.nodes)
    ensures forall t :: 0 <= t < |s.goroutines| ==> FramesSourced(run', tree', s.goroutines[t])
  {
    hide Sourced;
    forall c: nat | c < |s.nodes| && s.nodes[c].err.Some?
      ensures Sourced(run', tree', c, s.nodes[c].err.value)
    {
      SourceStays(run, run', tree, tree', c, s.nodes[c].err.value);
    }
    forall t, i | 0 <= t < |s.goroutines| && 0 <= i < |s.goroutines[t]|
      ensures FrameSourced(run', tree', s.goroutines[t][i])
    {
      var f := s.goroutines[t][i];
      assert FramesSourced(run, tree, s.goroutines[t]) && FrameSourced(run, tree, f);
      if Carried(f).Some? {
        SourceStays(run, run', tree, tree', f.c, Carried(f).value);
      }
    }
  }

  // ----- calls -----

  lemma BeginSourced(run: seq<Event>, s: State, call: Call)
    requires Inv(s) && Possible(s, call) && AllSourced(run, s)
    ensures var r := Begin(s, call); Grown(r.tree) && |r.tree| == |r.nodes| && AllSourced(run + [Called(call)], r)
  {
    hide NodesOk, StacksOk, OwnersOk, PendingOk, ChildrenOk, Sourced, Cause, Timely;
    InvShape(s);
    BeginKeeps(s, call);
    var r, run' := Begin(s, call), run + [Called(call)];
    InvShape(r);
    assert run'[|run|] == Called(call);
    StateStays(run, run', s.tree, r.tree, s);
    match call
    case CancelFunc(c) => CallSourced(run', s, c, Canceled);
    case Fire(c) =>
      FiresTimer(s, c);
      CallSourced(run', s, c, DeadlineExceeded);
    case _ =>
  }

  lemma FiresTimer(s: State, c: nat)
    requires Inv(s) && Possible(s, Fire(c))
    ensures s.tree[c].kind.TimerCtx?
  {
    assert NodeOk(s.tree, s.nodes, c);
  }

  lemma CallSourced(run: seq<Event>, s: State, c: nat, error: Error)
    requires Grown(s.tree) && c < |s.tree|
    requires error.Canceled? ==> Called(CancelFunc(c)) in run
    requires error.DeadlineExceeded? ==> s.tree[c].kind.TimerCtx? && Called(Fire(c)) in run
    ensures FrameSourced(run, s.tree, CancelOf(s.tree, c, true, error))
  {
    OwnSource(run, s.tree, c, error);
  }

  // ----- runs -----

  lemma {:induction false} LeadsFurther(s: State, run: seq<Event>, m: State, e: Event)
    requires Leads(s, run, m) && Allowed(m, e)
    ensures Leads(s, run + [e], Follow(m, e))
    decreases |run|
  {
    hide Allowed, Follow;
    if run == [] {
      assert [e][1..] == [];
    } else {
      LeadsFurther(Follow(s, run[0]), run[1..], m, e);
      assert (run + [e])[1..] == run[1..] + [e];
    }
  }

  lemma FollowSourced(run: seq<Event>, s: State, e: Event)
    requires Inv(s) && Allowed(s, e) && Grown(s.tree) && |s.tree| == |s.nodes| && AllSourced(run, s)
    requires Leads(INITIAL, run, s)
    ensures var r := Follow(s, e); Grown(r.tree) && |r.tree| == |r.nodes| && AllSourced(run + [e], r)
  {
    hide Inv, AllSourced, Step, Begin, CanRun, Possible, Leads;
    match e
    case Called(call) => BeginSourced(run, s, call);
    case Stepped(t, ch) =>
      StepSourced(run, s, t, ch);
      FollowKeeps(s, e);
      InvShape(Follow(s, e));
  }

  lemma {:induction false} RunSourced(before: seq<Event>, s: State, run: seq<Event>, r: State)
    requires Leads(INITIAL, before, s) && Inv(s) && Grown(s.tree) && |s.tree| == |s.nodes| && AllSourced(before, s)
    requires Leads(s, run, r)
    ensures Grown(r.tree) && |r.tree| == |r.nodes| && AllSourced(before + run, r)
    decreases |run|
  {
    hide Inv, Allowed, Follow, AllSourced;
    if run == [] {
      assert before + run == before;
    } else {
      var e := run[0];
      FollowKeeps(s, e);
      FollowSourced(before, s, e);
      LeadsFurther(INITIAL, before, s, e);
      RunSourced(before + [e], Follow(s, e), run[1..], r);
      assert before + [e] + run[1..] == before + run;
    }
  }

  /**
   * Every error has its cause, over every run from the start: a context whose error is Canceled is at or below one
   * whose cancel function was called, and one whose error is DeadlineExceeded at or below one with a deadline that was
   * over, as its timer fired or WithDeadline came too late.
   */
  lemma ErrorsHaveCauses(run: seq<Event>, s: State, c: nat)
    requires Leads(INITIAL, run, s) && c < |s.nodes| && s.nodes[c].err.Some?
    ensures Grown(s.tree) && c < |s.tree|
    ensures s.nodes[c].err == Some(Canceled) ==>
      exists a: nat :: a < |s.tree| && AtOrBelow(s.tree, c, a) && Called(CancelFunc(a)) in run
    ensures s.nodes[c].err == Some(DeadlineExceeded) ==>
      exists a: nat :: a < |s.tree| && AtOrBelow(s.tree, c, a) && s.tree[a].kind.TimerCtx?
        && (Called(Fire(a)) in run || WasLate(run, a))
  {
    hide Descends, WasLate;
    InitialInv();
    assert [] + run == run;
    RunSourced([], INITIAL, run, s);
    assert Sourced(run, s.tree, c, s.nodes[c].err.value);
    var a: nat :| a < |s.tree| && AtOrBelow(s.tree, c, a) && Cause(run, s.tree, a, s.nodes[c].err.value);
  }
}
