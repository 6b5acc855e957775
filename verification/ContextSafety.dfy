/** What every run of the contexts guarantees. */
module ContextSafety {
  import opened Options
  import opened ContextTree
  import opened ContextSteps
  import opened ContextInvariant
  import opened ContextProof
  import opened ContextRuns

  datatype Event = Called(call: Call) | Stepped(goroutine: nat, ch: Choice)

  const INITIAL := State([], [], [])

  ghost predicate Allowed(s: State, e: Event) {
    match e
    case Called(call) => Grown(s.tree) && |s.tree| == |s.nodes| && Possible(s, call)
    case Stepped(t, ch) => CanRun(s, t, ch)
  }

  ghost function Follow(s: State, e: Event): State
    requires Allowed(s, e)
  {
    match e
    case Called(call) => Begin(s, call)
    case Stepped(t, ch) => Step(s, t, ch)
  }

  /** A run leads from one state to another. */
  ghost predicate Leads(s: State, run: seq<Event>, r: State)
    decreases |run|
  {
    if run == [] then s == r else Allowed(s, run[0]) && Leads(Follow(s, run[0]), run[1..], r)
  }

  lemma InitialInv()
    ensures Inv(INITIAL)
  {
  }

  lemma FollowKeeps(s: State, e: Event)
    requires Inv(s) && Allowed(s, e)
    ensures Inv(Follow(s, e))
  {
    hide Inv, Step, Begin, CanRun, Possible;
    match e
    case Called(call) => BeginKeeps(s, call);
    case Stepped(t, ch) => StepKeeps(s, t, ch);
  }

  lemma {:induction false} RunKeeps(s: State, run: seq<Event>, r: State)
    requires Inv(s) && Leads(s, run, r)
    ensures Inv(r)
    decreases |run|
  {
    hide Inv, Allowed, Follow;
    if run != [] {
      FollowKeeps(s, run[0]);
      RunKeeps(Follow(s, run[0]), run[1..], r);
    }
  }

  /** The invariant holds wherever the program gets to. */
  lemma Reached(run: seq<Event>, s: State)
    requires Leads(INITIAL, run, s)
    ensures Inv(s)
  {
    InitialInv();
    RunKeeps(INITIAL, run, s);
  }

  /** Some run of the program leads here. */
  ghost predicate Reachable(s: State)
    ensures Reachable(s) ==> Inv(s) && Grown(s.tree) && |s.tree| == |s.nodes|
  {
    if exists run :: Leads(INITIAL, run, s) then
      var run :| Leads(INITIAL, run, s);
      Reached(run, s);
      true
    else
      false
  }

  // ----- cancellation is passed on -----

  /** No call is in progress. */
  ghost predicate Quiet(s: State) {
    forall t :: 0 <= t < |s.goroutines| ==> s.goroutines[t] == []
  }

  /** A canceled context whose lock is free has passed its cancellation on to everything derived from it that
      propagateCancel is done with. */
  lemma PassedOn(s: State, p: nat, c: nat)
    requires Reachable(s) && p < |s.nodes| && c < |s.nodes| && Cancellable(s.tree, c) && Above(s.tree, c) == Some(p)
    requires s.nodes[p].owner.None? && s.nodes[p].err.Some? && !s.nodes[c].pending
    ensures s.nodes[c].err.Some? && s.nodes[p].closed && s.nodes[p].children == {}
  {
    assert NodeOk(s.tree, s.nodes, p) && NodeOk(s.tree, s.nodes, c);
  }

  lemma QuietNode(s: State, c: nat)
    requires Inv(s) && Quiet(s) && c < |s.nodes|
    ensures s.nodes[c].owner.None? && !s.nodes[c].pending && (s.nodes[c].closed <==> s.nodes[c].err.Some?)
  {
    assert NodeOk(s.tree, s.nodes, c);
  }

  /** Done is closed exactly when there is an error, everything that was derived from a canceled context and can be
      canceled is canceled, and the children of any other context are exactly those that are not. */
  lemma QuietTree(s: State, p: nat, c: nat)
    requires Reachable(s) && Quiet(s) && p < |s.nodes| && c < |s.nodes|
    requires Cancellable(s.tree, p) && Cancellable(s.tree, c)
    ensures s.nodes[c].closed <==> s.nodes[c].err.Some?
    ensures s.nodes[p].err.Some? && Descends(s.tree, c, p) ==> s.nodes[c].err.Some?
    ensures s.nodes[p].err.None? ==>
      (c in s.nodes[p].children <==> Above(s.tree, c) == Some(p) && s.nodes[c].err.None?)
  {
    QuietNode(s, c);
    if s.nodes[p].err.Some? && Descends(s.tree, c, p) {
      QuietDescendant(s, p, c);
    }
    if s.nodes[p].err.None? {
      QuietChild(s, p, c);
    }
  }

  lemma PassedToChild(s: State, p: nat, c: nat)
    requires Inv(s) && Quiet(s) && p < |s.nodes| && c < |s.nodes| && Cancellable(s.tree, c)
    requires Above(s.tree, c) == Some(p) && s.nodes[p].err.Some?
    ensures s.nodes[c].err.Some?
  {
    QuietNode(s, p);
    QuietNode(s, c);
    assert NodeOk(s.tree, s.nodes, p) && NodeOk(s.tree, s.nodes, c);
  }

  lemma {:induction false} QuietDescendant(s: State, p: nat, c: nat)
    requires Inv(s) && Quiet(s) && p < |s.nodes| && c < |s.nodes| && Cancellable(s.tree, p) && Cancellable(s.tree, c)
    requires s.nodes[p].err.Some? && Descends(s.tree, c, p)
    ensures s.nodes[c].err.Some?
    decreases c
  {
    hide Inv, NodeOk;
    InvShape(s);
    AboveReaches(s.tree, c, p);
    var q := Above(s.tree, c).value;
    if q != p {
      QuietDescendant(s, p, q);
    }
    PassedToChild(s, q, c);
  }

  lemma QuietChild(s: State, p: nat, c: nat)
    requires Inv(s) && Quiet(s) && p < |s.nodes| && c < |s.nodes| && Cancellable(s.tree, c) && s.nodes[p].err.None?
    ensures c in s.nodes[p].children <==> Above(s.tree, c) == Some(p) && s.nodes[c].err.None?
  {
    QuietNode(s, c);
    assert NodeOk(s.tree, s.nodes, p) && NodeOk(s.tree, s.nodes, c);
    if c in s.nodes[p].children {
      assert !WillBeRemoved(s, c);
      assert !Stale(s.nodes, p, c);
    }
  }

  // ----- what never changes -----

  /** Errors are written once, closed channels stay closed, and nothing is derived anew. */
  ghost predicate Later(s: State, r: State) {
    && |s.tree| <= |r.tree| && |s.nodes| <= |r.nodes| && |s.nodes| == |s.tree|
    && forall c: nat :: c < |s.tree| ==>
      && r.tree[c] == s.tree[c]
      && (s.nodes[c].err.Some? ==> r.nodes[c].err == s.nodes[c].err) && (s.nodes[c].closed ==> r.nodes[c].closed)
  }

  lemma FollowLater(s: State, e: Event)
    requires Inv(s) && Allowed(s, e)
    ensures Later(s, Follow(s, e))
  {
    match e
    case Called(call) =>
    case Stepped(t, ch) =>
      var f, r := Top(s.goroutines[t]), Step(s, t, ch);
      TopCanStep(s, t, ch);
      StepMoves(s.tree, s.nodes, t, f, ch);
      forall c: nat | c < |s.tree|
        ensures s.nodes[c].err.Some? ==> r.nodes[c].err == s.nodes[c].err
        ensures s.nodes[c].closed ==> r.nodes[c].closed
      {
        assert Moved(s.nodes[c], r.nodes[c], s.tree[c].creator, t, Touched(s.tree, f) == Some(c),
                     Propagating(f) && f.c == c);
      }
  }

  lemma {:induction false} EventsLater(s: State, run: seq<Event>, r: State)
    requires Inv(s) && Leads(s, run, r)
    ensures Later(s, r)
    decreases |run|
  {
    hide Inv, Allowed, Follow;
    if run == [] {
      InvShape(s);
    } else {
      FollowKeeps(s, run[0]);
      FollowLater(s, run[0]);
      EventsLater(Follow(s, run[0]), run[1..], r);
    }
  }

  lemma RunLater(s: State, run: seq<Event>, r: State)
    requires Reachable(s) && Leads(s, run, r)
    ensures Later(s, r)
  {
    EventsLater(s, run, r);
  }

  lemma InvShape(s: State)
    requires Inv(s)
    ensures Grown(s.tree) && |s.tree| == |s.nodes|
  {
  }

  /** close(c.done) is never called on a closed channel. */
  lemma ClosedOnce(s: State, t: nat)
    requires Reachable(s) && t < |s.goroutines| && s.goroutines[t] != [] && Top(s.goroutines[t]).CancelClose?
    ensures Top(s.goroutines[t]).c < |s.nodes| && !s.nodes[Top(s.goroutines[t]).c].closed
  {
    assert StackOk(s.tree, s.nodes, t, s.goroutines[t]);
  }

  // ----- locks -----

  /** A goroutine that holds a lock takes only locks of contexts derived from that lock's. */
  lemma LocksGoDown(s: State, t: nat, i: nat)
    requires Reachable(s) && t < |s.goroutines| && i + 1 < |s.goroutines[t]|
    requires s.goroutines[t][i].c < |s.tree| && Top(s.goroutines[t]).c < |s.tree|
    requires Holds(s.tree, s.goroutines[t][i]).Some? && Wants(s.tree, Top(s.goroutines[t])).Some?
    ensures var h, m := Holds(s.tree, s.goroutines[t][i]).value, Wants(s.tree, Top(s.goroutines[t])).value;
      h < m < |s.tree| && Descends(s.tree, m, h)
  {
    LockBelow(s, t, i);
  }

  lemma LockBelow(s: State, t: nat, i: nat)
    requires Inv(s) && t < |s.goroutines| && i + 1 < |s.goroutines[t]|
    requires s.goroutines[t][i].c < |s.tree| && Top(s.goroutines[t]).c < |s.tree|
    requires Holds(s.tree, s.goroutines[t][i]).Some? && Wants(s.tree, Top(s.goroutines[t])).Some?
    ensures var h, m := Holds(s.tree, s.goroutines[t][i]).value, Wants(s.tree, Top(s.goroutines[t])).value;
      h < m < |s.tree| && Descends(s.tree, m, h)
  {
    hide NodeOk, FrameOk, Resumed, Calls, Holds, OwnersOk, PendingOk, ChildrenOk;
    var stack := s.goroutines[t];
    assert StackOk(s.tree, s.nodes, t, stack);
    LockOrder(s.tree, s.nodes, t, stack, i, |stack| - 1);
  }

  lemma Unblocked(s: State, t: nat)
    requires Inv(s) && t < |s.goroutines| && s.goroutines[t] != [] && Top(s.goroutines[t]).c < |s.tree|
    requires var m := Wants(s.tree, Top(s.goroutines[t])); m.Some? ==> s.nodes[m.value].owner.None?
    ensures exists ch :: CanRun(s, t, ch)
  {
    var f := Top(s.goroutines[t]);
    assert StackOk(s.tree, s.nodes, t, s.goroutines[t]) && FrameOk(s.tree, s.nodes, t, f);
    assert NodeOk(s.tree, s.nodes, f.c);
    var ch := Choice(0, false);
    if f.CancelLoop? && f.rest != {} {
      var d :| d in f.rest;
      ch := Choice(d, false);
    }
    assert CanRun(s, t, ch);
  }

  /** How far down the lock is that a goroutine waits for, counted from the last context. */
  ghost function Waits(s: State, t: nat): nat
    requires Inv(s) && t < |s.goroutines| && s.goroutines[t] != []
  {
    var f := Top(s.goroutines[t]);
    if f.c < |s.tree| && Wants(s.tree, f).Some? && Wants(s.tree, f).value < |s.tree|
    then |s.tree| - Wants(s.tree, f).value
    else 0
  }

  lemma TopShape(s: State, t: nat)
    requires Inv(s) && t < |s.goroutines| && s.goroutines[t] != []
    ensures var f := Top(s.goroutines[t]); f.c < |s.tree| && In(s.tree, Wants(s.tree, f))
  {
    assert StackOk(s.tree, s.nodes, t, s.goroutines[t]) && FrameOk(s.tree, s.nodes, t, Top(s.goroutines[t]));
  }

  /** The goroutine that holds the lock another one waits for waits, if it waits, for a lock further down. */
  lemma HolderWaits(s: State, t: nat, v: nat)
    requires Inv(s) && t < |s.goroutines| && s.goroutines[t] != [] && Top(s.goroutines[t]).c < |s.tree|
    requires var m := Wants(s.tree, Top(s.goroutines[t]));
      m.Some? && m.value < |s.nodes| && s.nodes[m.value].owner == Some(v)
    ensures v < |s.goroutines| && s.goroutines[v] != [] && Top(s.goroutines[v]).c < |s.tree|
    ensures Waits(s, v) < Waits(s, t)
  {
    hide NodeOk, Resumed, FrameOk;
    var m := Wants(s.tree, Top(s.goroutines[t])).value;
    assert Held(s.tree, s.goroutines[v], m);
    var other := s.goroutines[v];
    var i: nat :| i < |other| && other[i].c < |s.tree| && Holds(s.tree, other[i]) == Some(m);
    TopShape(s, v);
    if Wants(s.tree, Top(other)).Some? {
      assert i + 1 < |other|;
      LockBelow(s, v, i);
    }
  }

  lemma {:induction false} HolderRuns(s: State, t: nat)
    requires Inv(s) && t < |s.goroutines| && s.goroutines[t] != []
    ensures exists u: nat, ch :: CanRun(s, u, ch)
    decreases Waits(s, t)
  {
    hide Inv, CanRun, Waits;
    InvShape(s);
    TopShape(s, t);
    var m := Wants(s.tree, Top(s.goroutines[t]));
    if m.Some? && s.nodes[m.value].owner.Some? {
      var v := s.nodes[m.value].owner.value;
      HolderWaits(s, t, v);
      HolderRuns(s, v);
    } else {
      Unblocked(s, t);
    }
  }

  /** As long as a call is in progress, some goroutine can take a step: no goroutines wait for each other. */
  lemma SomeoneRuns(s: State)
    requires Reachable(s) && !Quiet(s)
    ensures exists u: nat, ch :: CanRun(s, u, ch)
  {
    hide Inv, CanRun;
    var t: nat :| t < |s.goroutines| && s.goroutines[t] != [];
    HolderRuns(s, t);
  }
}
