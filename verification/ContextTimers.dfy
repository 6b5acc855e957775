/** Timers are set while they are needed and stopped afterwards, every call returns its context, and a context is
    canceled exactly if something has canceled it. */
module ContextTimers {
  import opened Options
  import opened ContextTree
  import opened ContextSteps
  import opened ContextInvariant
  import opened ContextProof
  import opened ContextRuns
  import opened ContextSafety
  import opened ContextProgress
  import opened ContextErrors

  // ----- what is still going to happen -----

  /** The activation will hand out the context. */
  predicate Returning(f: Frame, c: nat) {
    f.c == c && (f.Deadlined? || f.StartTimer? || f.StartTimerLocked? || f.Late? || f.Return?)
  }

  /** It will set the timer or cancel the context. */
  predicate Setting(f: Frame, c: nat) {
    f.c == c
    && (f.Deadlined? || f.StartTimer? || f.StartTimerLocked? || f.TimerCancel? || f.Cancel? || f.CancelLocked?)
  }

  /** It will stop the timer. */
  predicate Stopping(f: Frame, c: nat) {
    f.c == c && (f.TimerCanceled? || f.Stop? || f.StopLocked? || ((f.Remove? || f.RemoveLocked?) && f.stop))
  }

  ghost predicate SomeReturning(s: State, c: nat) {
    exists t: nat, i: nat :: t < |s.goroutines| && i < |s.goroutines[t]| && Returning(s.goroutines[t][i], c)
  }

  ghost predicate SomeSetting(s: State, c: nat) {
    exists t: nat, i: nat :: t < |s.goroutines| && i < |s.goroutines[t]| && Setting(s.goroutines[t][i], c)
  }

  ghost predicate SomeStopping(s: State, c: nat) {
    exists t: nat, i: nat :: t < |s.goroutines| && i < |s.goroutines[t]| && Stopping(s.goroutines[t][i], c)
  }

  /** cancelCtx.cancel of a context with a timer. */
  predicate Bare(tree: seq<Shape>, f: Frame) {
    Canceling(f) && f.c < |tree| && tree[f.c].kind.TimerCtx?
  }

  predicate Wraps(g: Frame, f: Frame) {
    g.TimerCanceled? && g.c == f.c
  }

  /** It is called by timerCtx.cancel only. */
  ghost predicate Wrapped(tree: seq<Shape>, stack: Stack) {
    forall i :: 0 <= i < |stack| && Bare(tree, stack[i]) ==> i > 0 && Wraps(stack[i - 1], stack[i])
  }

  ghost predicate TimerOk(s: State, c: nat)
    requires |s.tree| == |s.nodes| && c < |s.nodes|
  {
    && (!s.nodes[c].ready ==> SomeReturning(s, c))
    && (s.tree[c].kind.TimerCtx? && s.nodes[c].err.None? && !s.nodes[c].timer ==> SomeSetting(s, c))
    && (s.nodes[c].err.Some? && s.nodes[c].timer ==> SomeStopping(s, c))
  }

  ghost predicate TimersOk(s: State)
    requires |s.tree| == |s.nodes|
  {
    && (forall c: nat :: c < |s.nodes| ==> TimerOk(s, c))
    && forall t: nat :: t < |s.goroutines| ==> Wrapped(s.tree, s.goroutines[t])
  }

  // ----- steps -----

  lemma ReturningStays(tree: seq<Shape>, nodes: seq<Node>, t: nat, f: Frame, ch: Choice, c: nat)
    requires CanStep(tree, nodes, t, f, ch) && Returning(f, c)
    ensures var e := Act(tree, nodes, t, f, ch);
      c < |e.nodes| && (!e.nodes[c].ready ==> exists j: nat :: j < |e.frames| && Returning(e.frames[j], c))
  {
    hide NodeOk, Resumed;
    var e := Act(tree, nodes, t, f, ch);
    assert e.frames != [] ==> Returning(e.frames[0], c);
  }

  lemma SettingStays(tree: seq<Shape>, nodes: seq<Node>, t: nat, f: Frame, ch: Choice, c: nat)
    requires CanStep(tree, nodes, t, f, ch) && Setting(f, c)
    ensures var e := Act(tree, nodes, t, f, ch);
      && c < |e.nodes|
      && (e.nodes[c].err.None? && !e.nodes[c].timer ==> exists j: nat :: j < |e.frames| && Setting(e.frames[j], c))
  {
    hide NodeOk, Resumed;
    var e := Act(tree, nodes, t, f, ch);
    assert e.frames != [] && e.nodes[c].err.None? && !e.nodes[c].timer ==>
      Setting(e.frames[0], c) || (|e.frames| > 1 && Setting(e.frames[1], c));
  }

  lemma StoppingStays(tree: seq<Shape>, nodes: seq<Node>, t: nat, f: Frame, ch: Choice, c: nat)
    requires CanStep(tree, nodes, t, f, ch) && Stopping(f, c)
    ensures var e := Act(tree, nodes, t, f, ch);
      c < |e.nodes| && (e.nodes[c].timer ==> exists j: nat :: j < |e.frames| && Stopping(e.frames[j], c))
  {
    hide NodeOk, Resumed;
    var e := Act(tree, nodes, t, f, ch);
    assert e.frames != [] ==> Stopping(e.frames[0], c);
  }

  /** A timer is set only while the context is not canceled, stopped only once it is, and a step that cancels it is
      the second one of cancelCtx.cancel. */
  lemma StepTimer(tree: seq<Shape>, nodes: seq<Node>, t: nat, f: Frame, ch: Choice, c: nat)
    requires CanStep(tree, nodes, t, f, ch) && c < |tree|
    ensures var e := Act(tree, nodes, t, f, ch);
      && |e.nodes| == |nodes|
      && (nodes[c].timer && !e.nodes[c].timer ==> nodes[c].err.Some?)
      && (!nodes[c].timer && e.nodes[c].timer ==> nodes[c].err.None? && e.nodes[c].err.None?)
      && (nodes[c].err.None? && e.nodes[c].err.Some? ==> f.CancelLocked? && f.c == c)
      && (nodes[c].err.Some? ==> e.nodes[c].err.Some?) && (nodes[c].ready ==> e.nodes[c].ready)
  {
    hide NodeOk, Resumed;
  }

  lemma StepWrapped(tree: seq<Shape>, nodes: seq<Node>, t: nat, stack: Stack, ch: Choice)
    requires stack != [] && CanStep(tree, nodes, t, Top(stack), ch) && Wrapped(tree, stack)
    ensures Wrapped(tree, Callers(stack) + Act(tree, nodes, t, Top(stack), ch).frames)
  {
    hide Enabled, Act, Bare, Wraps;
    assert FrameOk(tree, nodes, t, Top(stack));
    var f, e := Top(stack), Act(tree, nodes, t, Top(stack), ch);
    var after, k := Callers(stack) + e.frames, |stack| - 1;
    forall i | 0 <= i < |after| && Bare(tree, after[i]) ensures i > 0 && Wraps(after[i - 1], after[i]) {
      if i < k {
        assert after[i] == stack[i];
      } else {
        FrameWrapped(tree, nodes, t, f, ch, i - k);
        if i == k {
          assert stack[k] == f;
          SameWrap(stack[k - 1], f, after[i]);
        }
      }
    }
  }

  lemma SameWrap(g: Frame, f: Frame, f': Frame)
    requires Wraps(g, f) && f'.c == f.c
    ensures Wraps(g, f')
  {
  }

  lemma FrameWrapped(tree: seq<Shape>, nodes: seq<Node>, t: nat, f: Frame, ch: Choice, j: nat)
    requires CanStep(tree, nodes, t, f, ch) && j < |Act(tree, nodes, t, f, ch).frames|
    requires Bare(tree, Act(tree, nodes, t, f, ch).frames[j])
    ensures var fs := Act(tree, nodes, t, f, ch).frames;
      if j == 0 then Bare(tree, f) && fs[0].c == f.c else Wraps(fs[j - 1], fs[j])
  {
    hide NodeOk, FrameOk, Resumed;
  }

  /** An activation that is not the one that takes the step stays where it is. */
  lemma OthersStay(s: State, t: nat, ch: Choice, u: nat, i: nat)
    requires CanRun(s, t, ch) && u < |s.goroutines| && i < |s.goroutines[u]|
    requires u != t || i < |s.goroutines[t]| - 1
    ensures var r := Step(s, t, ch);
      u < |r.goroutines| && i < |r.goroutines[u]| && r.goroutines[u][i] == s.goroutines[u][i]
  {
    hide Act;
  }

  lemma NewFrame(s: State, t: nat, ch: Choice, j: nat)
    requires CanRun(s, t, ch) && j < |Act(s.tree, s.nodes, t, Top(s.goroutines[t]), ch).frames|
    ensures var r, k := Step(s, t, ch), |s.goroutines[t]| - 1;
      t < |r.goroutines| && k + j < |r.goroutines[t]|
      && r.goroutines[t][k + j] == Act(s.tree, s.nodes, t, Top(s.goroutines[t]), ch).frames[j]
  {
    hide Act;
  }

  lemma StepTimerOk(s: State, t: nat, ch: Choice, c: nat)
    requires Inv(s) && CanRun(s, t, ch) && |s.tree| == |s.nodes| && TimersOk(s) && c < |s.nodes|
    ensures var r := Step(s, t, ch); |r.tree| == |r.nodes| == |s.nodes| && TimerOk(r, c)
  {
    hide Inv, Act, Enabled, Returning, Setting, Stopping, Step;
    TopCanStep(s, t, ch);
    var stack, r := s.goroutines[t], Step(s, t, ch);
    var f, e, k := Top(stack), Act(s.tree, s.nodes, t, Top(stack), ch), |stack| - 1;
    StepTimer(s.tree, s.nodes, t, f, ch, c);
    StepIs(s, t, ch);
    assert TimerOk(s, c);
    if !r.nodes[c].ready {
      var u: nat, i: nat :| u < |s.goroutines| && i < |s.goroutines[u]| && Returning(s.goroutines[u][i], c);
      if u != t || i < k {
        OthersStay(s, t, ch, u, i);
      } else {
        ReturningStays(s.tree, s.nodes, t, f, ch, c);
        var j: nat :| j < |e.frames| && Returning(e.frames[j], c);
        NewFrame(s, t, ch, j);
      }
    }
    if s.tree[c].kind.TimerCtx? && r.nodes[c].err.None? && !r.nodes[c].timer {
      var u: nat, i: nat :| u < |s.goroutines| && i < |s.goroutines[u]| && Setting(s.goroutines[u][i], c);
      if u != t || i < k {
        OthersStay(s, t, ch, u, i);
      } else {
        SettingStays(s.tree, s.nodes, t, f, ch, c);
        var j: nat :| j < |e.frames| && Setting(e.frames[j], c);
        NewFrame(s, t, ch, j);
      }
    }
    if r.nodes[c].err.Some? && r.nodes[c].timer {
      StepStopping(s, t, ch, c);
    }
  }

  lemma StepIs(s: State, t: nat, ch: Choice)
    requires CanRun(s, t, ch)
    ensures Step(s, t, ch).tree == s.tree
    ensures Step(s, t, ch).nodes == Act(s.tree, s.nodes, t, Top(s.goroutines[t]), ch).nodes
  {
  }

  lemma StepStopping(s: State, t: nat, ch: Choice, c: nat)
    requires Inv(s) && CanRun(s, t, ch) && |s.tree| == |s.nodes| && TimersOk(s) && c < |s.nodes|
    requires c < |Step(s, t, ch).nodes| && Step(s, t, ch).nodes[c].err.Some? && Step(s, t, ch).nodes[c].timer
    ensures SomeStopping(Step(s, t, ch), c)
  {
    hide Inv, Act, Enabled, Step, NodeOk, FrameOk, Resumed;
    TopCanStep(s, t, ch);
    var stack, r := s.goroutines[t], Step(s, t, ch);
    var f, e, k := Top(stack), Act(s.tree, s.nodes, t, Top(stack), ch), |stack| - 1;
    StepTimer(s.tree, s.nodes, t, f, ch, c);
    StepIs(s, t, ch);
    assert TimerOk(s, c) && Wrapped(s.tree, stack);
    if s.nodes[c].err.Some? {
      var u: nat, i: nat :| u < |s.goroutines| && i < |s.goroutines[u]| && Stopping(s.goroutines[u][i], c);
      if u != t || i < k {
        OthersStay(s, t, ch, u, i);
      } else {
        StoppingStays(s.tree, s.nodes, t, f, ch, c);
        var j: nat :| j < |e.frames| && Stopping(e.frames[j], c);
        NewFrame(s, t, ch, j);
      }
    } else {
      HasTimer(s, c);
      assert stack[k] == f && Bare(s.tree, f) && Stopping(stack[k - 1], c);
      OthersStay(s, t, ch, t, k - 1);
    }
  }

  lemma HasTimer(s: State, c: nat)
    requires Inv(s) && c < |s.nodes| && s.nodes[c].timer
    ensures c < |s.tree| && s.tree[c].kind.TimerCtx?
  {
    assert NodeOk(s.tree, s.nodes, c);
  }

  lemma StepTimers(s: State, t: nat, ch: Choice)
    requires Inv(s) && CanRun(s, t, ch) && |s.tree| == |s.nodes| && TimersOk(s)
    ensures var r := Step(s, t, ch); |r.tree| == |r.nodes| && TimersOk(r)
  {
    hide Inv, Act, Enabled, TimerOk, Wrapped;
    TopCanStep(s, t, ch);
    var r := Step(s, t, ch);
    ActKeepsCount(s.tree, s.nodes, t, Top(s.goroutines[t]), ch);
    forall c: nat | c < |r.nodes| ensures TimerOk(r, c) {
      StepTimerOk(s, t, ch, c);
    }
    StepWrapped(s.tree, s.nodes, t, s.goroutines[t], ch);
  }

  lemma ActKeepsCount(tree: seq<Shape>, nodes: seq<Node>, t: nat, f: Frame, ch: Choice)
    requires CanStep(tree, nodes, t, f, ch)
    ensures |Act(tree, nodes, t, f, ch).nodes| == |nodes|
  {
    hide NodeOk, Resumed;
  }

  // ----- calls -----

  /** All that was going on goes on, and a goroutine is new. */
  lemma MoreStays(s: State, r: State, c: nat)
    requires s.goroutines <= r.goroutines
    ensures SomeReturning(s, c) ==> SomeReturning(r, c)
    ensures SomeSetting(s, c) ==> SomeSetting(r, c)
    ensures SomeStopping(s, c) ==> SomeStopping(r, c)
  {
    hide Returning, Setting, Stopping;
    if SomeReturning(s, c) {
      var t: nat, i: nat :| t < |s.goroutines| && i < |s.goroutines[t]| && Returning(s.goroutines[t][i], c);
      assert Returning(r.goroutines[t][i], c);
    }
    if SomeSetting(s, c) {
      var t: nat, i: nat :| t < |s.goroutines| && i < |s.goroutines[t]| && Setting(s.goroutines[t][i], c);
      assert Setting(r.goroutines[t][i], c);
    }
    if SomeStopping(s, c) {
      var t: nat, i: nat :| t < |s.goroutines| && i < |s.goroutines[t]| && Stopping(s.goroutines[t][i], c);
      assert Stopping(r.goroutines[t][i], c);
    }
  }

  /** What a call adds: a goroutine, and perhaps a context. */
  ghost predicate Adds(s: State, r: State) {
    && s.tree <= r.tree && s.nodes <= r.nodes && s.goroutines <= r.goroutines && |r.tree| == |r.nodes|
    && |r.goroutines| == |s.goroutines| + 1 && Wrapped(r.tree, r.goroutines[|s.goroutines|])
    && (r.nodes == s.nodes || (|r.nodes| == |s.nodes| + 1 && TimerOk(r, |s.nodes|)))
  }

  lemma NewContext(s: State, parent: Option<nat>, kind: Kind)
    requires |s.tree| == |s.nodes|
    ensures Adds(s, Derive(s, parent, kind))
  {
    var r, t := Derive(s, parent, kind), |s.goroutines|;
    if !kind.ValueCtx? {
      assert Returning(r.goroutines[t][0], |s.nodes|);
      if kind.TimerCtx? {
        assert Setting(r.goroutines[t][0], |s.nodes|);
      }
    }
  }

  /** What WithCancel, WithDeadline and WithValue make: a context whose deadline is the earlier one of its own and its
      parent's, and that has its parent's values except for its own. */
  lemma NewContextIs(s: State, call: Call)
    requires Inv(s) && Possible(s, call) && !call.CancelFunc? && !call.Fire?
    ensures var r, c := Begin(s, call), |s.tree|;
      && Grown(r.tree) && |r.tree| == c + 1 && r.tree[..c] == s.tree && r.tree[c].parent == call.parent
      && (Cancellable(r.tree, c) <==> !call.WithValue?)
      && (call.WithDeadline? ==>
            && NoLater(Deadline(r.tree, Some(c)), Some(call.deadline))
            && NoLater(Deadline(r.tree, Some(c)), Deadline(s.tree, call.parent))
            && Deadline(r.tree, Some(c)) in {Some(call.deadline), Deadline(s.tree, call.parent)})
      && (!call.WithDeadline? ==> Deadline(r.tree, Some(c)) == Deadline(s.tree, call.parent))
      && forall key :: Value(r.tree, Some(c), key)
                       == if call.WithValue? && key == call.key then Some(call.val)
                          else Value(s.tree, call.parent, key)
  {
    hide NodeOk, StacksOk, OwnersOk, PendingOk, ChildrenOk, Timely;
    var r := Begin(s, call);
    BeginKeeps(s, call);
    assert r.tree == s.tree + [r.tree[|s.tree|]];
    GrowKeeps(s.tree, r.tree[|s.tree|], call.parent);
  }

  lemma BeginAdds(s: State, call: Call)
    requires Grown(s.tree) && |s.tree| == |s.nodes| && Possible(s, call)
    ensures Adds(s, Begin(s, call))
  {
    hide Derive, TimerOk;
    match call
    case WithCancel(parent) => NewContext(s, parent, CancelCtx);
    case WithDeadline(parent, deadline) => NewContext(s, parent, DeadlineKind(s.tree, parent, deadline));
    case WithValue(parent, key, val) => NewContext(s, parent, ValueCtx(key, val));
    case _ =>
  }

  lemma BeginTimers(s: State, call: Call)
    requires Inv(s) && Possible(s, call) && Grown(s.tree) && |s.tree| == |s.nodes| && TimersOk(s)
    ensures var r := Begin(s, call); |r.tree| == |r.nodes| && TimersOk(r)
  {
    hide Inv, SomeReturning, SomeSetting, SomeStopping, Begin, Possible, Wrapped;
    var r := Begin(s, call);
    BeginAdds(s, call);
    forall c: nat | c < |r.nodes| ensures TimerOk(r, c) {
      if c < |s.nodes| {
        assert TimerOk(s, c);
        MoreStays(s, r, c);
      }
    }
    forall t: nat | t < |r.goroutines| ensures Wrapped(r.tree, r.goroutines[t]) {
      if t < |s.goroutines| {
        StackKnown(s, t);
        WrappedGrows(s.tree, r.tree, s.goroutines[t]);
      }
    }
  }

  lemma StackKnown(s: State, t: nat)
    requires Inv(s) && t < |s.goroutines|
    ensures forall i :: 0 <= i < |s.goroutines[t]| ==> s.goroutines[t][i].c < |s.tree|
  {
    assert StackOk(s.tree, s.nodes, t, s.goroutines[t]);
    forall i: nat | i < |s.goroutines[t]| ensures s.goroutines[t][i].c < |s.tree| {
      assert FrameOk(s.tree, s.nodes, t, s.goroutines[t][i]);
    }
  }

  lemma WrappedGrows(tree: seq<Shape>, tree': seq<Shape>, stack: Stack)
    requires tree <= tree' && Wrapped(tree, stack) && forall i :: 0 <= i < |stack| ==> stack[i].c < |tree|
    ensures Wrapped(tree', stack)
  {
  }

  // ----- runs -----

  lemma FollowTimers(s: State, e: Event)
    requires Inv(s) && Allowed(s, e) && |s.tree| == |s.nodes| && TimersOk(s)
    ensures var r := Follow(s, e); |r.tree| == |r.nodes| && TimersOk(r)
  {
    hide Inv, TimersOk, Step, Begin, CanRun, Possible;
    match e
    case Called(call) => BeginTimers(s, call);
    case Stepped(t, ch) => StepTimers(s, t, ch);
  }

  lemma {:induction false} RunTimers(s: State, run: seq<Event>, r: State)
    requires Inv(s) && |s.tree| == |s.nodes| && TimersOk(s) && Leads(s, run, r)
    ensures |r.tree| == |r.nodes| && TimersOk(r)
    decreases |run|
  {
    hide Inv, TimersOk, Allowed, Follow;
    if run != [] {
      FollowKeeps(s, run[0]);
      FollowTimers(s, run[0]);
      RunTimers(Follow(s, run[0]), run[1..], r);
    }
  }

  lemma TimersReached(s: State)
    requires Reachable(s)
    ensures TimersOk(s)
  {
    hide TimerOk, Wrapped;
    var run :| Leads(INITIAL, run, s);
    InitialInv();
    RunTimers(INITIAL, run, s);
  }

  // ----- when no call is in progress -----

  /** Every context has been returned to the program; a timer is set exactly for the contexts with a deadline that are
      not canceled, and the program can call what there is to call. */
  lemma QuietTimers(s: State, c: nat)
    requires Reachable(s) && Quiet(s) && c < |s.nodes|
    ensures s.nodes[c].ready
    ensures s.nodes[c].timer <==> s.tree[c].kind.TimerCtx? && s.nodes[c].err.None?
    ensures Possible(s, WithCancel(Some(c))) && Possible(s, Fire(c)) == s.nodes[c].timer
    ensures Possible(s, CancelFunc(c)) <==> Cancellable(s.tree, c)
  {
    TimersReached(s);
    assert TimerOk(s, c);
    if s.nodes[c].timer {
      HasTimer(s, c);
    }
  }

  /** The program has called a's cancel function, or a's deadline was over. */
  ghost predicate Caused(run: seq<Event>, tree: seq<Shape>, a: nat) {
    || Called(CancelFunc(a)) in run
    || (a < |tree| && tree[a].kind.TimerCtx? && (Called(Fire(a)) in run || WasLate(run, a)))
  }

  /** What is called or found late at some point of a run dooms the context there. */
  lemma EventDooms(s: State, e: Event, a: nat)
    requires Inv(s) && Allowed(s, e)
    requires e == Called(CancelFunc(a)) || e == Called(Fire(a)) || FindsLate(s, e, a)
    ensures Doomed(Follow(s, e), a)
  {
    hide Inv, NodeOk;
    var r := Follow(s, e);
    if e.Called? {
      assert WillCancel(r.goroutines[|s.goroutines|][0], a);
    } else {
      var k := |s.goroutines[e.goroutine]| - 1;
      assert r.goroutines[e.goroutine][k + 1] == TimerCancel(a, true, DeadlineExceeded);
      assert WillCancel(r.goroutines[e.goroutine][k + 1], a);
    }
  }

  lemma {:induction false} RunSplits(s: State, run: seq<Event>, r: State, i: nat) returns (m: State)
    requires Inv(s) && Leads(s, run, r) && i < |run|
    ensures Inv(m) && Leads(s, run[..i], m) && Allowed(m, run[i]) && Leads(Follow(m, run[i]), run[i + 1..], r)
    decreases i
  {
    hide Inv, Allowed, Follow;
    if i == 0 {
      m := s;
    } else {
      FollowKeeps(s, run[0]);
      m := RunSplits(Follow(s, run[0]), run[1..], r, i - 1);
      assert run[..i][1..] == run[1..][..i - 1] && run[1..][i..] == run[i + 1..];
    }
  }

  lemma {:induction false} OneState(s: State, run: seq<Event>, a: State, b: State)
    requires Leads(s, run, a) && Leads(s, run, b)
    ensures a == b
    decreases |run|
  {
    hide Allowed, Follow;
    if run != [] {
      OneState(Follow(s, run[0]), run[1..], a, b);
    }
  }

  lemma CauseDooms(run: seq<Event>, s: State, a: nat)
    requires Leads(INITIAL, run, s) && Caused(run, s.tree, a)
    ensures Doomed(s, a)
  {
    hide Inv, Allowed, Follow, Doomed, FindsLate;
    InitialInv();
    var i: nat;
    if Called(CancelFunc(a)) in run {
      i :| i < |run| && run[i] == Called(CancelFunc(a));
    } else if Called(Fire(a)) in run {
      i :| i < |run| && run[i] == Called(Fire(a));
    } else {
      var m: State;
      i, m :| i < |run| && Leads(INITIAL, run[..i], m) && FindsLate(m, run[i], a);
    }
    var m := RunSplits(INITIAL, run, s, i);
    assert run[i] == Called(CancelFunc(a)) || run[i] == Called(Fire(a)) || FindsLate(m, run[i], a) by {
      if !(run[i] == Called(CancelFunc(a)) || run[i] == Called(Fire(a))) {
        var m1 :| Leads(INITIAL, run[..i], m1) && FindsLate(m1, run[i], a);
        OneState(INITIAL, run[..i], m, m1);
      }
    }
    EventDooms(m, run[i], a);
    FollowKeeps(m, run[i]);
    RunDooms(Follow(m, run[i]), run[i + 1..], s, a);
  }

  /** With no call in progress a context is canceled exactly if, at it or above it, a cancel function has been called or
      a deadline was over. */
  lemma CanceledExactly(run: seq<Event>, s: State, c: nat)
    requires Leads(INITIAL, run, s) && Quiet(s) && c < |s.nodes|
    ensures Grown(s.tree) && c < |s.tree| == |s.nodes|
    ensures Cancellable(s.tree, c) ==>
      (s.nodes[c].err.Some? <==> exists a: nat :: a < |s.tree| && AtOrBelow(s.tree, c, a) && Caused(run, s.tree, a))
  {
    hide Descends, WasLate, Leads, Inv;
    assert Reachable(s);
    if s.nodes[c].err.Some? {
      SomeCause(run, s, c);
    }
    if Cancellable(s.tree, c) && exists a: nat :: a < |s.tree| && AtOrBelow(s.tree, c, a) && Caused(run, s.tree, a) {
      var a: nat :| a < |s.tree| && AtOrBelow(s.tree, c, a) && Caused(run, s.tree, a);
      CauseDooms(run, s, a);
      DoomedIsCanceled(s, a);
      if c != a {
        QuietDescendant(s, a, c);
      }
    }
  }

  lemma SomeCause(run: seq<Event>, s: State, c: nat)
    requires Leads(INITIAL, run, s) && c < |s.nodes| && s.nodes[c].err.Some?
    ensures Grown(s.tree) && c < |s.tree|
    ensures exists a: nat :: a < |s.tree| && AtOrBelow(s.tree, c, a) && Caused(run, s.tree, a)
  {
    hide Descends, WasLate, Leads;
    ErrorsHaveCauses(run, s, c);
    if s.nodes[c].err.value.Canceled? {
      var a: nat :| a < |s.tree| && AtOrBelow(s.tree, c, a) && Called(CancelFunc(a)) in run;
      assert Caused(run, s.tree, a);
    } else {
      var a: nat :| a < |s.tree| && AtOrBelow(s.tree, c, a) && s.tree[a].kind.TimerCtx?
        && (Called(Fire(a)) in run || WasLate(run, a));
      assert Caused(run, s.tree, a);
    }
  }

  lemma DoomedIsCanceled(s: State, a: nat)
    requires Inv(s) && Quiet(s) && Doomed(s, a)
    ensures a < |s.nodes| == |s.tree| && s.nodes[a].err.Some? && Cancellable(s.tree, a)
  {
    assert NodeOk(s.tree, s.nodes, a);
  }
}
