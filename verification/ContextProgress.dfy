/** Every call ends, and a cancel call reaches everything derived from its context. */
module ContextProgress {
  import opened ContextTree
  import opened ContextSteps
  import opened ContextInvariant
  import opened ContextProof
  import opened ContextRuns
  import opened ContextSafety

  // ----- how much work is left -----

  /** More steps than canceling the context c and everything derived from it takes, when there are n contexts. */
  function Bound(n: nat, c: nat): nat
    decreases n - c, 2
  {
    if c >= n then 20 else 20 + Loop(n, c, n)
  }

  /** The same for a loop over k children of c. */
  function Loop(n: nat, c: nat, k: nat): nat
    requires c < n
    decreases n - c, 1
  {
    k * Child(n, c)
  }

  function Child(n: nat, c: nat): nat
    requires c < n
    decreases n - c, 0
  {
    Bound(n, c + 1) + 2
  }

  lemma LoopStep(n: nat, c: nat, k: nat)
    requires c < n && k > 0
    ensures Loop(n, c, k) == Loop(n, c, k - 1) + Child(n, c)
  {
    assert k * Child(n, c) == (k - 1) * Child(n, c) + Child(n, c);
  }

  lemma {:induction false} LoopGrows(n: nat, c: nat, k: nat, m: nat)
    requires c < n && k <= m
    ensures Loop(n, c, k) <= Loop(n, c, m)
    decreases m - k
  {
    if k < m {
      LoopStep(n, c, m);
      LoopGrows(n, c, k, m - 1);
    }
  }

  lemma BoundStep(n: nat, c: nat)
    requires c < n
    ensures Bound(n, c) == 20 + Loop(n, c, n)
  {
  }

  lemma {:induction false} BoundFalls(n: nat, c: nat, d: nat)
    requires c <= d
    ensures Bound(n, d) <= Bound(n, c)
    decreases d - c
  {
    hide Bound, Loop;
    if c < d {
      BoundFalls(n, c + 1, d);
      BoundNext(n, c);
    }
  }

  lemma BoundNext(n: nat, c: nat)
    ensures Bound(n, c + 1) <= Bound(n, c)
  {
    hide Loop;
    if c < n {
      assert Loop(n, c, 1) == Child(n, c) by {
        LoopStep(n, c, 1);
        LoopNothing(n, c);
      }
      LoopGrows(n, c, 1, n);
    }
  }

  lemma LoopNothing(n: nat, c: nat)
    requires c < n
    ensures Loop(n, c, 0) == 0
  {
  }

  /** Less than this many steps are left to an activation and to those it will call. */
  function Weight(n: nat, f: Frame): nat {
    if f.c >= n then 0 else
    match f
    case Cancel(c, _, _) => 11 + Loop(n, c, n)
    case CancelLocked(c, _, _) => 10 + Loop(n, c, n)
    case CancelClose(c, _, _) => 9 + Loop(n, c, n)
    case CancelLoop(c, _, _, rest) => 8 + Loop(n, c, |rest|)
    case CancelCalled(c, _, _, rest, _) => 9 + Loop(n, c, if |rest| > 0 then |rest| - 1 else 0)
    case TimerCancel(c, _, _) => 19 + Loop(n, c, n)
    case TimerCanceled(_, _) => 7
    case Stop(_) => 3
    case StopLocked(_) => 2
    case Remove(_, _) => 6
    case RemoveLocked(_, _) => 5
    case Propagate(c) => Bound(n, c) + 3
    case PropagateLocked(c) => Bound(n, c) + 2
    case PropagateCalled(_) => 1
    case Deadlined(c) => Bound(n, c) + 2
    case StartTimer(_) => 3
    case StartTimerLocked(_) => 2
    case Late(_) => 1
    case Return(_) => 1
  }

  function StackWeight(n: nat, stack: Stack): nat {
    if stack == [] then 0 else StackWeight(n, stack[..|stack| - 1]) + Weight(n, stack[|stack| - 1])
  }

  lemma CancelWeighs(n: nat, tree: seq<Shape>, c: nat, remove: bool, error: Error)
    requires c < |tree| == n
    ensures Weight(n, CancelOf(tree, c, remove, error)) < Bound(n, c)
  {
    hide Loop;
    BoundStep(n, c);
  }

  lemma {:induction false} SetFits(s: set<nat>, n: nat)
    requires forall d :: d in s ==> d < n
    ensures |s| <= n
  {
    if n == 0 {
      assert s == {};
    } else {
      SetFits(s - {n - 1}, n - 1);
    }
  }

  lemma FramesWeigh(n: nat, frames: Stack)
    requires |frames| <= 2
    ensures StackWeight(n, frames) ==
      (if |frames| > 0 then Weight(n, frames[0]) else 0) + (if |frames| > 1 then Weight(n, frames[1]) else 0)
  {
    hide Weight;
    if |frames| > 0 {
      assert StackWeight(n, frames) == StackWeight(n, frames[..|frames| - 1]) + Weight(n, frames[|frames| - 1]);
      if |frames| == 2 {
        var one := frames[..1];
        assert StackWeight(n, one) == StackWeight(n, one[..0]) + Weight(n, one[0]);
      }
    }
  }

  lemma LoopShrinks(tree: seq<Shape>, nodes: seq<Node>, t: nat, f: Frame, ch: Choice)
    requires CanStep(tree, nodes, t, f, ch) && f.CancelLoop?
    ensures StackWeight(|tree|, Act(tree, nodes, t, f, ch).frames) < Weight(|tree|, f)
  {
    hide Loop, Bound, Child, StackWeight, Resumed;
    var n, e := |tree|, Act(tree, nodes, t, f, ch);
    FramesWeigh(n, e.frames);
    assert NodeOk(tree, nodes, f.c);
    if f.rest != {} {
      assert f.c < ch.child < n;
      CancelWeighs(n, tree, ch.child, false, f.error);
      BoundFalls(n, f.c + 1, ch.child);
      LoopStep(n, f.c, |f.rest|);
      ChildIs(n, f.c);
    }
  }

  lemma ChildIs(n: nat, c: nat)
    requires c < n
    ensures Child(n, c) == Bound(n, c + 1) + 2
  {
  }

  lemma CalledShrinks(tree: seq<Shape>, nodes: seq<Node>, t: nat, f: Frame, ch: Choice)
    requires CanStep(tree, nodes, t, f, ch) && f.CancelCalled?
    ensures StackWeight(|tree|, Act(tree, nodes, t, f, ch).frames) < Weight(|tree|, f)
  {
    hide Loop, Bound, Child;
    var n, e := |tree|, Act(tree, nodes, t, f, ch);
    FramesWeigh(n, e.frames);
    assert |f.rest - {f.child}| == |f.rest| - 1;
  }

  lemma FirstShrinks(tree: seq<Shape>, nodes: seq<Node>, t: nat, f: Frame, ch: Choice)
    requires CanStep(tree, nodes, t, f, ch) && Canceling(f) && !f.CancelLoop? && !f.CancelCalled?
    ensures StackWeight(|tree|, Act(tree, nodes, t, f, ch).frames) < Weight(|tree|, f)
  {
    hide Loop, Bound, Child, StackWeight;
    var n, e := |tree|, Act(tree, nodes, t, f, ch);
    FramesWeigh(n, e.frames);
    assert NodeOk(tree, nodes, f.c);
    SetFits(nodes[f.c].children, n);
    LoopGrows(n, f.c, |nodes[f.c].children|, n);
  }

  lemma PropagateShrinks(tree: seq<Shape>, nodes: seq<Node>, t: nat, f: Frame, ch: Choice)
    requires CanStep(tree, nodes, t, f, ch) && Propagating(f)
    ensures StackWeight(|tree|, Act(tree, nodes, t, f, ch).frames) < Weight(|tree|, f)
  {
    hide Loop, Bound, Child, StackWeight;
    var n, e := |tree|, Act(tree, nodes, t, f, ch);
    FramesWeigh(n, e.frames);
    if f.PropagateLocked? && nodes[Above(tree, f.c).value].err.Some? {
      CancelWeighs(n, tree, f.c, false, nodes[Above(tree, f.c).value].err.value);
    }
  }

  ghost predicate Timing(f: Frame) {
    f.TimerCancel? || f.TimerCanceled? || f.Deadlined? || f.StartTimer? || f.StartTimerLocked?
  }

  lemma TimerShrinks(tree: seq<Shape>, nodes: seq<Node>, t: nat, f: Frame, ch: Choice)
    requires CanStep(tree, nodes, t, f, ch) && Timing(f)
    ensures StackWeight(|tree|, Act(tree, nodes, t, f, ch).frames) < Weight(|tree|, f)
  {
    hide Loop, Bound, Child, StackWeight, NodeOk;
    var n, e := |tree|, Act(tree, nodes, t, f, ch);
    FramesWeigh(n, e.frames);
    BoundStep(n, f.c);
  }

  lemma OtherShrinks(tree: seq<Shape>, nodes: seq<Node>, t: nat, f: Frame, ch: Choice)
    requires CanStep(tree, nodes, t, f, ch) && !Propagating(f) && !Canceling(f) && !Timing(f)
    ensures StackWeight(|tree|, Act(tree, nodes, t, f, ch).frames) < Weight(|tree|, f)
  {
    hide Loop, Bound, Child, StackWeight, NodeOk;
    FramesWeigh(|tree|, Act(tree, nodes, t, f, ch).frames);
  }

  lemma ActShrinks(tree: seq<Shape>, nodes: seq<Node>, t: nat, f: Frame, ch: Choice)
    requires CanStep(tree, nodes, t, f, ch)
    ensures StackWeight(|tree|, Act(tree, nodes, t, f, ch).frames) < Weight(|tree|, f)
  {
    hide StackWeight, Weight, Act, NodeOk, FrameOk, Resumed;
    if f.CancelLoop? {
      LoopShrinks(tree, nodes, t, f, ch);
    } else if f.CancelCalled? {
      CalledShrinks(tree, nodes, t, f, ch);
    } else if Canceling(f) {
      FirstShrinks(tree, nodes, t, f, ch);
    } else if Propagating(f) {
      PropagateShrinks(tree, nodes, t, f, ch);
    } else if Timing(f) {
      TimerShrinks(tree, nodes, t, f, ch);
    } else {
      OtherShrinks(tree, nodes, t, f, ch);
    }
  }

  // ----- calls end -----

  function Work(n: nat, stacks: seq<Stack>): nat {
    if stacks == [] then 0 else StackWeight(n, stacks[0]) + Work(n, stacks[1..])
  }

  lemma {:induction false} WorkReplaced(n: nat, stacks: seq<Stack>, t: nat, stack: Stack)
    requires t < |stacks|
    ensures Work(n, stacks[t := stack]) + StackWeight(n, stacks[t]) == Work(n, stacks) + StackWeight(n, stack)
    decreases t
  {
    hide StackWeight;
    var after := stacks[t := stack];
    if t == 0 {
      assert after[1..] == stacks[1..];
    } else {
      assert after[1..] == stacks[1..][t - 1 := stack];
      WorkReplaced(n, stacks[1..], t - 1, stack);
    }
  }

  lemma {:induction false} WeightConcat(n: nat, a: Stack, b: Stack)
    ensures StackWeight(n, a + b) == StackWeight(n, a) + StackWeight(n, b)
    decreases |b|
  {
    hide Weight;
    if b == [] {
      assert a + b == a;
    } else {
      var k := |b| - 1;
      assert (a + b)[..|a + b| - 1] == a + b[..k];
      WeightConcat(n, a, b[..k]);
    }
  }

  /** Every step uses up some of the work that is left. */
  lemma StepWorks(s: State, t: nat, ch: Choice)
    requires Inv(s) && CanRun(s, t, ch)
    ensures Work(|s.tree|, Step(s, t, ch).goroutines) < Work(|s.tree|, s.goroutines)
  {
    hide Inv, Act, Weight, Enabled, NodeOk;
    TopCanStep(s, t, ch);
    var stack, n := s.goroutines[t], |s.tree|;
    var f, e := Top(stack), Act(s.tree, s.nodes, t, Top(stack), ch);
    ActShrinks(s.tree, s.nodes, t, f, ch);
    WeightConcat(n, Callers(stack), e.frames);
    assert StackWeight(n, stack) == StackWeight(n, Callers(stack)) + Weight(n, f);
    WorkReplaced(n, s.goroutines, t, Callers(stack) + e.frames);
  }

  ghost predicate OnlySteps(run: seq<Event>) {
    forall i :: 0 <= i < |run| ==> run[i].Stepped?
  }

  lemma {:induction false} StepsWork(s: State, run: seq<Event>, r: State)
    requires Inv(s) && Leads(s, run, r) && OnlySteps(run)
    ensures |run| + Work(|s.tree|, r.goroutines) <= Work(|s.tree|, s.goroutines)
    decreases |run|
  {
    hide Inv, CanRun, Step;
    if run != [] {
      var t, ch := run[0].goroutine, run[0].ch;
      StepWorks(s, t, ch);
      StepKeeps(s, t, ch);
      StepTree(s, t, ch);
      StepsWork(Step(s, t, ch), run[1..], r);
    }
  }

  /** Unless the program makes new calls, only so many steps are left. */
  lemma RunsEnd(s: State, run: seq<Event>, r: State)
    requires Reachable(s) && Leads(s, run, r) && OnlySteps(run)
    ensures |run| <= Work(|s.tree|, s.goroutines)
  {
    StepsWork(s, run, r);
  }

  lemma StepTree(s: State, t: nat, ch: Choice)
    requires CanRun(s, t, ch)
    ensures Step(s, t, ch).tree == s.tree
  {
  }

  lemma {:induction false} CallsReturn(s: State)
    requires Inv(s)
    ensures exists run, r :: OnlySteps(run) && Leads(s, run, r) && Quiet(r)
    decreases Work(|s.tree|, s.goroutines)
  {
    hide Inv, CanRun, Step, Work;
    if Quiet(s) {
      assert OnlySteps([]) && Leads(s, [], s);
    } else {
      var t: nat :| t < |s.goroutines| && s.goroutines[t] != [];
      HolderRuns(s, t);
      var u: nat, ch :| CanRun(s, u, ch);
      StepWorks(s, u, ch);
      StepKeeps(s, u, ch);
      StepTree(s, u, ch);
      CallsReturn(Step(s, u, ch));
      var run, r :| OnlySteps(run) && Leads(Step(s, u, ch), run, r) && Quiet(r);
      var longer := [Stepped(u, ch)] + run;
      assert longer[1..] == run;
      assert OnlySteps(longer) && Leads(s, longer, r);
    }
  }

  /** Whatever is in progress, all calls return if the goroutines go on. */
  lemma AllReturn(s: State)
    requires Reachable(s)
    ensures exists run, r :: OnlySteps(run) && Leads(s, run, r) && Quiet(r)
  {
    CallsReturn(s);
  }

  // ----- cancel calls take effect -----

  predicate WillCancel(f: Frame, c: nat) {
    f.c == c && (f.Cancel? || f.CancelLocked? || f.TimerCancel?)
  }

  /** The context is canceled, or some goroutine is about to cancel it. */
  ghost predicate Doomed(s: State, c: nat) {
    c < |s.nodes| && (s.nodes[c].err.Some? ||
      exists t: nat, i: nat :: t < |s.goroutines| && i < |s.goroutines[t]| && WillCancel(s.goroutines[t][i], c))
  }

  lemma StepDooms(s: State, t: nat, ch: Choice, c: nat)
    requires Inv(s) && CanRun(s, t, ch) && Doomed(s, c)
    ensures Doomed(Step(s, t, ch), c)
  {
    hide Inv, Act, Enabled, NodeOk, FrameOk;
    TopCanStep(s, t, ch);
    var stack, r := s.goroutines[t], Step(s, t, ch);
    var f, e := Top(stack), Act(s.tree, s.nodes, t, Top(stack), ch);
    FollowLater(s, Stepped(t, ch));
    if s.nodes[c].err.None? {
      var u: nat, i: nat :| u < |s.goroutines| && i < |s.goroutines[u]| && WillCancel(s.goroutines[u][i], c);
      if u != t || i < |stack| - 1 {
        assert r.goroutines[u][i] == s.goroutines[u][i];
      } else {
        ActDooms(s.tree, s.nodes, t, f, ch);
        if r.nodes[c].err.None? {
          var j: nat :| j < |e.frames| && WillCancel(e.frames[j], c);
          assert r.goroutines[t][|stack| - 1 + j] == e.frames[j];
        }
      }
    }
  }

  lemma ActDooms(tree: seq<Shape>, nodes: seq<Node>, t: nat, f: Frame, ch: Choice)
    requires CanStep(tree, nodes, t, f, ch) && WillCancel(f, f.c)
    ensures var e := Act(tree, nodes, t, f, ch);
      e.nodes[f.c].err.Some? || exists j: nat :: j < |e.frames| && WillCancel(e.frames[j], f.c)
  {
    var e := Act(tree, nodes, t, f, ch);
    if f.Cancel? {
      assert WillCancel(e.frames[0], f.c);
    } else if f.TimerCancel? {
      assert WillCancel(e.frames[1], f.c);
    }
  }

  lemma BeginDooms(s: State, call: Call, c: nat)
    requires Inv(s) && Possible(s, call) && Doomed(s, c)
    ensures Doomed(Begin(s, call), c)
  {
    hide Inv;
    InvShape(s);
    var r := Begin(s, call);
    if s.nodes[c].err.None? {
      var t: nat, i: nat :| t < |s.goroutines| && i < |s.goroutines[t]| && WillCancel(s.goroutines[t][i], c);
      assert r.goroutines[t][i] == s.goroutines[t][i];
    }
  }

  lemma {:induction false} RunDooms(s: State, run: seq<Event>, r: State, c: nat)
    requires Inv(s) && Leads(s, run, r) && Doomed(s, c)
    ensures Doomed(r, c)
    decreases |run|
  {
    hide Inv, Allowed, Follow, Doomed;
    if run != [] {
      FollowKeeps(s, run[0]);
      FollowDooms(s, run[0], c);
      RunDooms(Follow(s, run[0]), run[1..], r, c);
    }
  }

  lemma FollowDooms(s: State, e: Event, c: nat)
    requires Inv(s) && Allowed(s, e) && Doomed(s, c)
    ensures Doomed(Follow(s, e), c)
  {
    hide Inv, Step, Begin, CanRun, Possible, Doomed;
    match e
    case Called(call) => BeginDooms(s, call, c);
    case Stepped(t, ch) => StepDooms(s, t, ch, c);
  }

  /** After a call of a context's cancel function, whatever else the program does, all that was derived from the context
      by the time no call is in progress has been canceled, and its channel closed. */
  lemma CancelReaches(s: State, c: nat, run: seq<Event>, r: State, d: nat)
    requires Reachable(s) && Possible(s, CancelFunc(c)) && Leads(Begin(s, CancelFunc(c)), run, r) && Quiet(r)
    requires d < |r.nodes| && |r.tree| == |r.nodes| && Grown(r.tree) && Cancellable(r.tree, d)
    requires d == c || Descends(r.tree, d, c)
    ensures r.nodes[d].err.Some? && r.nodes[d].closed
  {
    hide Inv, Begin, Above, Descends;
    InvShape(s);
    var s1 := Begin(s, CancelFunc(c));
    BeginKeeps(s, CancelFunc(c));
    CallDooms(s, c);
    RunKeeps(s1, run, r);
    EventsLater(s1, run, r);
    RunDooms(s1, run, r, c);
    if d != c {
      QuietDescendant(r, c, d);
    }
    QuietNode(r, d);
  }

  lemma CallDooms(s: State, c: nat)
    requires Inv(s) && Possible(s, CancelFunc(c))
    ensures var r := Begin(s, CancelFunc(c));
      Doomed(r, c) && r.tree == s.tree && |r.nodes| == |r.tree| && c < |r.tree| && Cancellable(r.tree, c)
  {
    var r := Begin(s, CancelFunc(c));
    assert WillCancel(r.goroutines[|s.goroutines|][0], c);
  }
}
