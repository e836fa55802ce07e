/** Resets are atomic in every interleaving. A reset that calls while no other is at the gate is let
    in once exactly the operations in flight at its call have finished; behind another reset,
    operations that come later may pass first. */
module GateTheorems {
  import opened Prelude
  import opened Gate

  lemma OrderAppend(order: seq<Item>, x: Item, t: nat)
    ensures OpSteps(order + [x], t) == OpSteps(order, t) + if x.OpStep? && x.thread == t then [x.step] else []
    ensures Resets(order + [x], t) == Resets(order, t) + if x == WholeReset(t) then 1 else 0
  {
    assert (order + [x])[..|order|] == order;
  }

  lemma FlattenAppend<A>(ps: map<nat, Program<A>>, order: seq<Item>, x: Item)
    requires x.thread in ps
    ensures Flatten(ps, order + [x]) ==
            Flatten(ps, order) + if x.OpStep? then [Entry(x.thread, x.step)] else Steps(x.thread, |ps[x.thread].steps|)
  {
    assert (order + [x])[..|order|] == order;
  }

  lemma GuardedKept<A>(ps: map<nat, Program<A>>, s: State<A>, a: Action)
    requires Guarded(ps, s) && Enabled(ps, s, a)
    ensures Guarded(ps, Next(ps, s, a))
  {
  }

  lemma ExecutedKept<A>(ps: map<nat, Program<A>>, app: A, s: State<A>, a: Action)
    requires s.phases.Keys == ps.Keys && Enabled(ps, s, a) && Executed(ps, app, s)
    ensures Executed(ps, app, Next(ps, s, a))
  {
    if a.Step? {
      var e := Entry(a.thread, s.phases[a.thread].done);
      assert (s.trace + [e])[..|s.trace|] == s.trace;
      assert ProperEntry(ps, e);
    }
  }

  lemma StepTraced<A>(ps: map<nat, Program<A>>, s: State<A>, t: nat)
    requires Guarded(ps, s) && s.trace == Flatten(ps, s.order) + Unordered(s) && Enabled(ps, s, Step(t))
    ensures var n := Next(ps, s, Step(t)); n.trace == Flatten(ps, n.order) + Unordered(n)
  {
    StepUnordered(ps, s, t);
    FlattenAppend(ps, s.order, OpStep(t, s.phases[t].done));
  }

  /** Only a reset's step waits to be ordered. */
  lemma StepUnordered<A>(ps: map<nat, Program<A>>, s: State<A>, t: nat)
    requires Guarded(ps, s) && Enabled(ps, s, Step(t))
    ensures Unordered(Next(ps, s, Step(t)))
            == if ps[t].exclusive then Unordered(s) + [Entry(t, s.phases[t].done)] else []
    ensures !ps[t].exclusive ==> Unordered(s) == []
  {
    if ps[t].exclusive {
      assert Unordered(s) == Steps(t, s.phases[t].done);
    }
  }

  lemma StepContributed<A>(ps: map<nat, Program<A>>, s: State<A>, t: nat, u: nat)
    requires Guarded(ps, s) && Enabled(ps, s, Step(t)) && u in ps && Contributed(ps, s, u)
    ensures Contributed(ps, Next(ps, s, Step(t)), u)
  {
    OrderAppend(s.order, OpStep(t, s.phases[t].done), u);
  }

  lemma StepOrdered<A>(ps: map<nat, Program<A>>, s: State<A>, t: nat)
    requires Guarded(ps, s) && Ordered(ps, s) && Enabled(ps, s, Step(t))
    ensures Ordered(ps, Next(ps, s, Step(t)))
  {
    var n := Next(ps, s, Step(t));
    StepTraced(ps, s, t);
    forall u | u in ps
      ensures Contributed(ps, n, u)
    {
      StepContributed(ps, s, t, u);
    }
    StepShape(ps, s, t);
  }

  lemma AppendOp(order: seq<Item>, t: nat, k: nat)
    requires NoStraddling(order)
    requires forall i, j :: 0 <= i < j < |order| && order[i].OpStep? && order[i].thread == t ==> !order[j].WholeReset?
    ensures NoStraddling(order + [OpStep(t, k)])
  {
    var longer := order + [OpStep(t, k)];
    forall i, j, l | 0 <= i < j < l < |longer| && longer[i].OpStep? && longer[l].OpStep? && longer[i].thread == longer[l].thread
      ensures !longer[j].WholeReset?
    {
      assert longer[i] == order[i] && longer[j] == order[j];
    }
  }

  lemma StepNoResetSince<A>(ps: map<nat, Program<A>>, s: State<A>, t: nat)
    requires Guarded(ps, s) && Enabled(ps, s, Step(t)) && NoResetSince(s)
    ensures NoResetSince(Next(ps, s, Step(t)))
  {
  }

  lemma StepShape<A>(ps: map<nat, Program<A>>, s: State<A>, t: nat)
    requires Guarded(ps, s) && Enabled(ps, s, Step(t))
    requires WellTyped(ps, s) && NoStraddling(s.order) && NoResetSince(s) && DoneInRange(ps, s)
    ensures var n := Next(ps, s, Step(t));
            WellTyped(ps, n) && NoStraddling(n.order) && NoResetSince(n) && DoneInRange(ps, n)
  {
    StepNoResetSince(ps, s, t);
    if !ps[t].exclusive {
      AppendOp(s.order, t, s.phases[t].done);
    }
  }

  lemma LeaveContributed<A>(ps: map<nat, Program<A>>, s: State<A>, t: nat, u: nat)
    requires Guarded(ps, s) && Enabled(ps, s, Leave(t)) && u in ps && Contributed(ps, s, u)
    ensures Contributed(ps, Next(ps, s, Leave(t)), u)
  {
    OrderAppend(s.order, WholeReset(t), u);
  }

  lemma LeaveOrdered<A>(ps: map<nat, Program<A>>, s: State<A>, t: nat)
    requires Guarded(ps, s) && Ordered(ps, s) && Enabled(ps, s, Leave(t))
    ensures Ordered(ps, Next(ps, s, Leave(t)))
  {
    var n := Next(ps, s, Leave(t));
    LeaveTraced(ps, s, t);
    forall u | u in ps
      ensures Contributed(ps, n, u)
    {
      LeaveContributed(ps, s, t, u);
    }
    LeaveShape(ps, s, t);
  }

  lemma LeaveTraced<A>(ps: map<nat, Program<A>>, s: State<A>, t: nat)
    requires Guarded(ps, s) && s.trace == Flatten(ps, s.order) + Unordered(s) && Enabled(ps, s, Leave(t))
    ensures var n := Next(ps, s, Leave(t)); n.trace == Flatten(ps, n.order) + Unordered(n)
  {
    LeaveUnordered(ps, s, t);
    if ps[t].exclusive {
      FlattenAppend(ps, s.order, WholeReset(t));
    }
  }

  /** A reset that leaves has run its whole program; nothing else was waiting to be ordered. */
  lemma LeaveUnordered<A>(ps: map<nat, Program<A>>, s: State<A>, t: nat)
    requires Guarded(ps, s) && Enabled(ps, s, Leave(t))
    ensures Unordered(s) == if ps[t].exclusive then Steps(t, |ps[t].steps|) else []
    ensures Unordered(Next(ps, s, Leave(t))) == []
  {
  }

  /** When a reset leaves, no operation is inside to be straddled. */
  lemma LeaveShape<A>(ps: map<nat, Program<A>>, s: State<A>, t: nat)
    requires Guarded(ps, s) && Enabled(ps, s, Leave(t))
    requires WellTyped(ps, s) && NoStraddling(s.order) && NoResetSince(s) && DoneInRange(ps, s)
    ensures var n := Next(ps, s, Leave(t));
            WellTyped(ps, n) && NoStraddling(n.order) && NoResetSince(n) && DoneInRange(ps, n)
  {
    if ps[t].exclusive {
      NobodyElseInside(ps, s, t);
      ResetLeaveShape(ps, s, t);
    }
  }

  lemma NobodyElseInside<A>(ps: map<nat, Program<A>>, s: State<A>, t: nat)
    requires Guarded(ps, s) && t in ps && ps[t].exclusive && s.phases[t].Inside?
    ensures forall u :: u in ps && !ps[u].exclusive ==> !s.phases[u].Inside?
  {
  }

  lemma ResetLeaveShape<A>(ps: map<nat, Program<A>>, s: State<A>, t: nat)
    requires Guarded(ps, s) && Enabled(ps, s, Leave(t)) && ps[t].exclusive
    requires forall u :: u in ps && !ps[u].exclusive ==> !s.phases[u].Inside?
    requires WellTyped(ps, s) && NoStraddling(s.order) && NoResetSince(s)
    ensures var n := Next(ps, s, Leave(t)); WellTyped(ps, n) && NoStraddling(n.order) && NoResetSince(n)
  {
  }

  /** Coming to the gate and passing it executes nothing. */
  lemma QuietOrdered<A>(ps: map<nat, Program<A>>, s: State<A>, a: Action)
    requires Guarded(ps, s) && Ordered(ps, s) && Enabled(ps, s, a) && (a.Call? || a.Enter?)
    ensures Ordered(ps, Next(ps, s, a))
  {
    var n := Next(ps, s, a);
    QuietUnordered(ps, s, a);
    forall u | u in ps
      ensures Contributed(ps, n, u)
    {
      QuietContributed(ps, s, a, u);
    }
    QuietShape(ps, s, a);
  }

  lemma QuietShape<A>(ps: map<nat, Program<A>>, s: State<A>, a: Action)
    requires Guarded(ps, s) && Enabled(ps, s, a) && (a.Call? || a.Enter?)
    requires WellTyped(ps, s) && NoStraddling(s.order) && NoResetSince(s) && DoneInRange(ps, s)
    ensures var n := Next(ps, s, a);
            WellTyped(ps, n) && NoStraddling(n.order) && NoResetSince(n) && DoneInRange(ps, n)
  {
    if a.Enter? {
      assert forall x :: x in s.order ==> x.thread != a.thread;
    }
  }

  lemma QuietUnordered<A>(ps: map<nat, Program<A>>, s: State<A>, a: Action)
    requires Guarded(ps, s) && Enabled(ps, s, a) && (a.Call? || a.Enter?)
    ensures Unordered(Next(ps, s, a)) == Unordered(s)
  {
    assert Steps(a.thread, 0) == [];
  }

  lemma QuietContributed<A>(ps: map<nat, Program<A>>, s: State<A>, a: Action, u: nat)
    requires Guarded(ps, s) && Enabled(ps, s, a) && (a.Call? || a.Enter?) && u in ps && Contributed(ps, s, u)
    ensures Contributed(ps, Next(ps, s, a), u)
  {
  }

  lemma OrderedKept<A>(ps: map<nat, Program<A>>, s: State<A>, a: Action)
    requires Guarded(ps, s) && Ordered(ps, s) && Enabled(ps, s, a)
    ensures Ordered(ps, Next(ps, s, a))
  {
    match a
    case Step(t) => StepOrdered(ps, s, t);
    case Leave(t) => LeaveOrdered(ps, s, t);
    case Call(t) => QuietOrdered(ps, s, a);
    case Announce(_) =>
    case Enter(t) => QuietOrdered(ps, s, a);
  }

  lemma {:induction false} RunKeeps<A>(ps: map<nat, Program<A>>, app: A, s: State<A>, actions: seq<Action>)
    requires Guarded(ps, s) && Ordered(ps, s) && Executed(ps, app, s) && Feasible(ps, s, actions)
    ensures var n := Ran(ps, s, actions); Guarded(ps, n) && Ordered(ps, n) && Executed(ps, app, n)
    decreases |actions|
  {
    if actions != [] {
      GuardedKept(ps, s, actions[0]);
      OrderedKept(ps, s, actions[0]);
      ExecutedKept(ps, app, s, actions[0]);
      RunKeeps(ps, app, Next(ps, s, actions[0]), actions[1..]);
    }
  }

  lemma FromStart<A>(ps: map<nat, Program<A>>, app: A, actions: seq<Action>)
    requires Feasible(ps, Start(ps, true, app), actions)
    ensures var n := Ran(ps, Start(ps, true, app), actions); Guarded(ps, n) && Ordered(ps, n) && Executed(ps, app, n)
  {
    RunKeeps(ps, app, Start(ps, true, app), actions);
  }

  // ---- Main results ----

  /** `order` is a serial account of the run: it replays to the application's state, holds every
      finished reset once and whole, every operation's steps once and in program order, and
      never a reset between two steps of one operation. */
  ghost predicate SerialAccount<A>(ps: map<nat, Program<A>>, app: A, s: State<A>, order: seq<Item>)
    requires s.phases.Keys == ps.Keys
  {
    && Flatten(ps, order) == s.trace
    && (forall e :: e in Flatten(ps, order) ==> ProperEntry(ps, e))
    && s.app == Replay(ps, app, Flatten(ps, order))
    && (forall x :: x in order ==> x.thread in ps && (x.WholeReset? <==> ps[x.thread].exclusive))
    && (forall t :: t in ps && ps[t].exclusive ==> Resets(order, t) == if s.phases[t].Finished? then 1 else 0)
    && (forall t :: t in ps && !ps[t].exclusive ==>
          |OpSteps(order, t)| == Progress(s.phases[t], |ps[t].steps|)
          && forall i :: 0 <= i < |OpSteps(order, t)| ==> OpSteps(order, t)[i] == i)
    && NoStraddling(order)
  }

  /** Any run of any operations and resets, whenever no reset is inside, did what some serial
      order of whole resets among the operations does. */
  lemma ResetsAreAtomic<A>(ps: map<nat, Program<A>>, app: A, actions: seq<Action>)
    requires Feasible(ps, Start(ps, true, app), actions)
    requires !ResetInside(Ran(ps, Start(ps, true, app), actions))
    ensures exists order :: SerialAccount(ps, app, Ran(ps, Start(ps, true, app), actions), order)
  {
    FromStart(ps, app, actions);
    var s := Ran(ps, Start(ps, true, app), actions);
    assert Flatten(ps, s.order) + [] == Flatten(ps, s.order);
    assert forall t :: t in ps ==> Contributed(ps, s, t);
    assert SerialAccount(ps, app, s, s.order);
  }

  /** At every moment: a reset inside is alone inside. */
  lemma ResetInsideIsAlone<A>(ps: map<nat, Program<A>>, app: A, actions: seq<Action>, t: nat, u: nat)
    requires Feasible(ps, Start(ps, true, app), actions)
    requires t in ps && u in ps && t != u && ps[t].exclusive
    ensures var s := Ran(ps, Start(ps, true, app), actions); s.phases[t].Inside? ==> !s.phases[u].Inside?
  {
    FromStart(ps, app, actions);
  }

  // ---- From a reset's call to its entry ----

  predicate WaitingAnnounced<A>(s: State<A>, t: nat) {
    s.gate.Some? && s.gate.value.announced == Some(t) && !s.gate.value.held
  }

  function Leaves(actions: seq<Action>): nat {
    if actions == [] then 0 else (if actions[0].Leave? then 1 else 0) + Leaves(actions[1..])
  }

  /** From the moment a reset is announced until it enters, no operation gets in and each one
      that leaves was in flight at the announcement; the reset may enter when that many have left. */
  lemma {:induction false} DrainsExactlyInFlight<A>(ps: map<nat, Program<A>>, s: State<A>, actions: seq<Action>,
                                                    t: nat)
    requires Guarded(ps, s) && WaitingAnnounced(s, t) && Feasible(ps, s, actions) && Enter(t) !in actions
    ensures var n := Ran(ps, s, actions);
            && Guarded(ps, n) && WaitingAnnounced(n, t)
            && n.gate.value.readers <= s.gate.value.readers
            && |n.gate.value.readers| + Leaves(actions) == |s.gate.value.readers|
            && (Enabled(ps, n, Enter(t)) <==> Leaves(actions) == |s.gate.value.readers|)
    ensures forall u :: Enter(u) !in actions
    decreases |actions|
  {
    if actions != [] {
      var a := actions[0];
      var n := Next(ps, s, a);
      GuardedKept(ps, s, a);
      assert a in actions;
      assert WaitingAnnounced(n, t);
      if a.Leave? {
        assert a.thread in s.gate.value.readers;
        assert n.gate.value.readers == s.gate.value.readers - {a.thread};
      } else {
        assert n.gate.value.readers == s.gate.value.readers;
      }
      DrainsExactlyInFlight(ps, n, actions[1..], t);
    }
  }

  /** Of the threads only some have moved. */
  predicate OnlyMoved<A>(s: State<A>, n: State<A>, moved: set<nat>) {
    s.phases.Keys == n.phases.Keys && forall u :: u in s.phases && u !in moved ==> n.phases[u] == s.phases[u]
  }

  predicate By(actions: seq<Action>, threads: set<nat>) {
    forall a :: a in actions ==> a.thread in threads
  }

  /** The actions are possible, are all by the threads named, and end in `n`. */
  ghost predicate Leads<A>(ps: map<nat, Program<A>>, s: State<A>, actions: seq<Action>, n: State<A>, moved: set<nat>) {
    && s.phases.Keys == ps.Keys && Feasible(ps, s, actions) && Ran(ps, s, actions) == n
    && By(actions, moved) && OnlyMoved(s, n, moved)
    && Guarded(ps, n) && DoneInRange(ps, n)
  }

  lemma LeadsOne<A>(ps: map<nat, Program<A>>, s: State<A>, a: Action)
    requires Guarded(ps, s) && DoneInRange(ps, s) && Enabled(ps, s, a)
    ensures Leads(ps, s, [a], Next(ps, s, a), {a.thread}) && Leaves([a]) == if a.Leave? then 1 else 0
  {
    GuardedKept(ps, s, a);
    assert [a][1..] == [];
    assert Feasible(ps, Next(ps, s, a), []);
  }

  lemma RanCons<A>(ps: map<nat, Program<A>>, s: State<A>, a: Action, n: State<A>, rest: seq<Action>)
    requires s.phases.Keys == ps.Keys && Enabled(ps, s, a) && n == Next(ps, s, a) && Feasible(ps, n, rest)
    ensures Feasible(ps, s, [a] + rest) && Ran(ps, s, [a] + rest) == Ran(ps, n, rest)
  {
    assert ([a] + rest)[1..] == rest;
  }

  lemma RanFirst<A>(ps: map<nat, Program<A>>, s: State<A>, actions: seq<Action>) returns (n: State<A>)
    requires s.phases.Keys == ps.Keys && actions != [] && Feasible(ps, s, actions)
    ensures Enabled(ps, s, actions[0]) && n == Next(ps, s, actions[0])
    ensures Feasible(ps, n, actions[1..]) && Ran(ps, s, actions) == Ran(ps, n, actions[1..])
  {
    n := Next(ps, s, actions[0]);
  }

  lemma {:induction false} RanConcat<A>(ps: map<nat, Program<A>>, s: State<A>, a: seq<Action>, b: seq<Action>)
    requires s.phases.Keys == ps.Keys && Feasible(ps, s, a) && Feasible(ps, Ran(ps, s, a), b)
    ensures Feasible(ps, s, a + b) && Ran(ps, s, a + b) == Ran(ps, Ran(ps, s, a), b)
    decreases |a|
  {
    if a == [] {
      assert a + b == b;
    } else {
      var n := RanFirst(ps, s, a);
      RanConcat(ps, n, a[1..], b);
      Prepended(ps, s, n, a, b);
    }
  }

  lemma Prepended<A>(ps: map<nat, Program<A>>, s: State<A>, n: State<A>, a: seq<Action>, b: seq<Action>)
    requires s.phases.Keys == ps.Keys && a != [] && Enabled(ps, s, a[0]) && n == Next(ps, s, a[0])
    requires Feasible(ps, n, a[1..] + b)
    ensures Feasible(ps, s, a + b) && Ran(ps, s, a + b) == Ran(ps, n, a[1..] + b)
  {
    RanCons(ps, s, a[0], n, a[1..] + b);
    assert a + b == [a[0]] + (a[1..] + b);
  }

  /** A run written out state by state. */
  ghost predicate Passes<A>(ps: map<nat, Program<A>>, states: seq<State<A>>, actions: seq<Action>) {
    && |states| == |actions| + 1
    && (forall i :: 0 <= i < |states| ==> states[i].phases.Keys == ps.Keys)
    && (forall i :: 0 <= i < |actions| ==> Moves(ps, states[i], actions[i], states[i + 1]))
  }

  ghost predicate Moves<A>(ps: map<nat, Program<A>>, s: State<A>, a: Action, n: State<A>)
    requires s.phases.Keys == ps.Keys
  {
    Enabled(ps, s, a) && Next(ps, s, a) == n
  }

  lemma {:induction false} PassesRuns<A>(ps: map<nat, Program<A>>, states: seq<State<A>>, actions: seq<Action>)
    requires Passes(ps, states, actions)
    ensures Feasible(ps, states[0], actions) && Ran(ps, states[0], actions) == states[|actions|]
    decreases |actions|
  {
    if actions != [] {
      assert Moves(ps, states[0], actions[0], states[1]);
      PassesRuns(ps, states[1..], actions[1..]);
      RanCons(ps, states[0], actions[0], states[1], actions[1..]);
      assert actions == [actions[0]] + actions[1..];
    }
  }

  lemma {:induction false} LeavesConcat(a: seq<Action>, b: seq<Action>)
    ensures Leaves(a + b) == Leaves(a) + Leaves(b)
  {
    if a == [] {
      assert a + b == b;
    } else {
      LeavesConcat(a[1..], b);
      assert (a + b)[1..] == a[1..] + b;
    }
  }

  lemma LeadsConcat<A>(ps: map<nat, Program<A>>, s: State<A>, a: seq<Action>, m: State<A>, b: seq<Action>, n: State<A>,
                       some: set<nat>, more: set<nat>, both: set<nat>)
    requires Leads(ps, s, a, m, some) && Leads(ps, m, b, n, more) && some <= both && more <= both
    ensures Leads(ps, s, a + b, n, both) && Leaves(a + b) == Leaves(a) + Leaves(b)
  {
    RanConcat(ps, s, a, b);
    LeavesConcat(a, b);
  }

  /** A thread inside runs its steps and leaves, nobody else moving. */
  lemma {:induction false} RunsOut<A>(ps: map<nat, Program<A>>, s: State<A>, r: nat)
    returns (actions: seq<Action>, n: State<A>)
    requires Guarded(ps, s) && DoneInRange(ps, s) && r in ps && s.phases[r].Inside?
    ensures Leads(ps, s, actions, n, {r}) && Leaves(actions) == 1
    ensures n.phases[r].Finished? && n.gate == Some(Locked(s.gate.value, ps[r].exclusive, Leave(r)))
    decreases |ps[r].steps| - s.phases[r].done
  {
    var a := if s.phases[r].done < |ps[r].steps| then Step(r) else Leave(r);
    LeadsOne(ps, s, a);
    actions, n := [a], Next(ps, s, a);
    if a.Step? {
      var m, rest := n, [];
      rest, n := RunsOut(ps, m, r);
      LeadsConcat(ps, s, [a], m, rest, n, {r}, {r}, {r});
      actions := [a] + rest;
    }
  }

  lemma ReaderRunsOut<A>(ps: map<nat, Program<A>>, s: State<A>, t: nat, r: nat)
    returns (actions: seq<Action>, n: State<A>)
    requires Guarded(ps, s) && DoneInRange(ps, s) && WaitingAnnounced(s, t) && r in s.gate.value.readers
    ensures Leads(ps, s, actions, n, {r}) && Leaves(actions) == 1
    ensures n.gate == Some(s.gate.value.(readers := s.gate.value.readers - {r})) && WaitingAnnounced(n, t)
  {
    actions, n := RunsOut(ps, s, r);
  }

  /** An announced reset can always be brought inside by letting the operations in flight run out,
      whatever else is waiting. */
  lemma {:induction false} AnnouncedResetCanEnter<A>(ps: map<nat, Program<A>>, s: State<A>, t: nat)
    returns (actions: seq<Action>, n: State<A>)
    requires Guarded(ps, s) && DoneInRange(ps, s) && WaitingAnnounced(s, t)
    ensures Leads(ps, s, actions, n, s.gate.value.readers + {t}) && Leaves(actions) == |s.gate.value.readers|
    ensures n.phases[t] == Inside(0) && n.gate == Some(s.gate.value.(held := true, readers := {}))
    decreases |s.gate.value.readers|
  {
    var readers := s.gate.value.readers;
    if readers == {} {
      LeadsOne(ps, s, Enter(t));
      actions, n := [Enter(t)], Next(ps, s, Enter(t));
      assert readers + {t} == {t};
    } else {
      var r :| r in readers;
      var first, m := ReaderRunsOut(ps, s, t, r);
      var rest;
      rest, n := AnnouncedResetCanEnter(ps, m, t);
      LeadsConcat(ps, s, first, m, rest, n, {r}, readers - {r} + {t}, readers + {t});
      actions := first + rest;
    }
  }

  /** The reset at the gate, announced or inside, goes through and leaves. */
  lemma ResetAtGateRunsOut<A>(ps: map<nat, Program<A>>, s: State<A>) returns (actions: seq<Action>, n: State<A>)
    requires Guarded(ps, s) && DoneInRange(ps, s) && s.gate.value.announced.Some?
    ensures Leads(ps, s, actions, n, s.gate.value.readers + {s.gate.value.announced.value})
    ensures Leaves(actions) == |s.gate.value.readers| + 1
    ensures n.gate == Some(s.gate.value.(announced := None, held := false, readers := {}))
  {
    var w, readers := s.gate.value.announced.value, s.gate.value.readers;
    if s.gate.value.held {
      actions, n := InsideResetRunsOut(ps, s, w);
      assert readers + {w} == {w};
    } else {
      actions, n := WaitingResetRunsOut(ps, s, w);
    }
  }

  lemma InsideResetRunsOut<A>(ps: map<nat, Program<A>>, s: State<A>, t: nat)
    returns (actions: seq<Action>, n: State<A>)
    requires Guarded(ps, s) && DoneInRange(ps, s) && t in ps && ps[t].exclusive && s.phases[t].Inside?
    ensures Leads(ps, s, actions, n, {t}) && Leaves(actions) == 1
    ensures n.gate == Some(s.gate.value.(announced := None, held := false))
  {
    actions, n := RunsOut(ps, s, t);
  }

  lemma WaitingResetRunsOut<A>(ps: map<nat, Program<A>>, s: State<A>, t: nat)
    returns (actions: seq<Action>, n: State<A>)
    requires Guarded(ps, s) && DoneInRange(ps, s) && WaitingAnnounced(s, t)
    ensures Leads(ps, s, actions, n, s.gate.value.readers + {t}) && Leaves(actions) == |s.gate.value.readers| + 1
    ensures n.gate == Some(s.gate.value.(announced := None, held := false, readers := {}))
  {
    var readers := s.gate.value.readers;
    assert t in ps && ps[t].exclusive;
    var first, m := AnnouncedResetCanEnter(ps, s, t);
    var rest;
    rest, n := InsideResetRunsOut(ps, m, t);
    LeadsConcat(ps, s, first, m, rest, n, readers + {t}, {t}, readers + {t});
    actions := first + rest;
  }

  /** Any reset that has called can be brought inside by letting the operations in flight and, if
      there is one, the reset at the gate before it run out. */
  lemma CalledResetCanEnter<A>(ps: map<nat, Program<A>>, s: State<A>, t: nat)
    returns (actions: seq<Action>, n: State<A>)
    requires Guarded(ps, s) && DoneInRange(ps, s) && t in ps && ps[t].exclusive && s.phases[t].Waiting?
    ensures Feasible(ps, s, actions) && n == Ran(ps, s, actions) && n.phases[t] == Inside(0)
    ensures Leaves(actions)
            == |s.gate.value.readers| + if s.gate.value.announced in {None, Some(t)} then 0 else 1
  {
    if s.gate.value.announced == Some(t) {
      actions, n := AnnouncedResetCanEnter(ps, s, t);
    } else if s.gate.value.announced.None? {
      actions, n := QueuedResetCanEnter(ps, s, t);
    } else {
      var first, m := ResetAtGateRunsOut(ps, s);
      var rest;
      rest, n := QueuedResetCanEnter(ps, m, t);
      RanConcat(ps, s, first, rest);
      LeavesConcat(first, rest);
      actions := first + rest;
    }
  }

  lemma QueuedResetCanEnter<A>(ps: map<nat, Program<A>>, s: State<A>, t: nat)
    returns (actions: seq<Action>, n: State<A>)
    requires Guarded(ps, s) && DoneInRange(ps, s) && t in s.gate.value.queued && s.gate.value.announced.None?
    ensures Feasible(ps, s, actions) && n == Ran(ps, s, actions) && n.phases[t] == Inside(0)
    ensures Leaves(actions) == |s.gate.value.readers|
  {
    var m, rest := Next(ps, s, Announce(t)), [];
    LeadsOne(ps, s, Announce(t));
    rest, n := AnnouncedResetCanEnter(ps, m, t);
    RanConcat(ps, s, [Announce(t)], rest);
    LeavesConcat([Announce(t)], rest);
    actions := [Announce(t)] + rest;
  }

  // ---- What a reset's call keeps out ----

  /** Between its call in `s` and its entry reset `t` lets no operation pass the gate. */
  ghost predicate KeepsOperationsOut<A>(ps: map<nat, Program<A>>, s: State<A>, t: nat)
    requires s.phases.Keys == ps.Keys && Enabled(ps, s, Call(t))
  {
    forall actions :: Feasible(ps, Next(ps, s, Call(t)), actions) && Enter(t) !in actions ==>
      forall u :: u in ps && !ps[u].exclusive ==> Enter(u) !in actions
  }

  /** An operation that has yet to pass the gate: waiting there, or not even called. */
  predicate YetToEnter<A>(ps: map<nat, Program<A>>, s: State<A>, u: nat)
    requires s.phases.Keys == ps.Keys
  {
    u in ps && !ps[u].exclusive && (s.phases[u].Idle? || s.phases[u].Waiting?)
  }

  /** Behind a reset at the gate, a called reset lets any operation pass that has yet to: when the
      first reset leaves, the lock is open until the second announces itself. */
  lemma OperationPassesQueuedReset<A>(ps: map<nat, Program<A>>, s: State<A>, t: nat, u: nat)
    returns (actions: seq<Action>, n: State<A>)
    requires Guarded(ps, s) && DoneInRange(ps, s) && t in ps && ps[t].exclusive && Enabled(ps, s, Call(t))
    requires s.gate.value.announced.Some? && YetToEnter(ps, s, u)
    ensures Feasible(ps, Next(ps, s, Call(t)), actions) && Enter(t) !in actions && Enter(u) in actions
    ensures n == Ran(ps, Next(ps, s, Call(t)), actions) && n.phases[t].Waiting? && n.phases[u] == Inside(0)
  {
    LeadsOne(ps, s, Call(t));
    var s1 := Next(ps, s, Call(t));
    var first, m := ResetAtGateRunsOut(ps, s1);
    assert m.phases[u] == s1.phases[u] && m.phases[t] == s1.phases[t];
    var rest;
    rest, n := WalksIn(ps, m, u);
    RanConcat(ps, s1, first, rest);
    actions := first + rest;
  }

  lemma WalksIn<A>(ps: map<nat, Program<A>>, s: State<A>, u: nat) returns (actions: seq<Action>, n: State<A>)
    requires Guarded(ps, s) && DoneInRange(ps, s) && s.gate.value.announced.None? && YetToEnter(ps, s, u)
    ensures Leads(ps, s, actions, n, {u}) && Enter(u) in actions && n.phases[u] == Inside(0)
    ensures n.gate == Some(s.gate.value.(readers := s.gate.value.readers + {u}))
  {
    if s.phases[u].Waiting? {
      LeadsOne(ps, s, Enter(u));
      actions, n := [Enter(u)], Next(ps, s, Enter(u));
    } else {
      var m := Next(ps, s, Call(u));
      LeadsOne(ps, s, Call(u));
      LeadsOne(ps, m, Enter(u));
      n := Next(ps, m, Enter(u));
      LeadsConcat(ps, s, [Call(u)], m, [Enter(u)], n, {u}, {u}, {u});
      actions := [Call(u)] + [Enter(u)];
    }
  }

  /** Two resets and an operation, none with a step of its own. */
  const QUEUE: map<nat, Program<int>> := map[0 := Program(true, []), 1 := Program(true, []), 2 := Program(false, [])]

  const QUEUE_RUN := [Call(0), Enter(0), Call(1), Call(2), Leave(0), Enter(2)]

  function Queue(a: Phase, b: Phase, c: Phase, gate: RWMutex, order: seq<Item>): (s: State<int>)
    ensures s.phases.Keys == QUEUE.Keys
  {
    State(Some(gate), map[0 := a, 1 := b, 2 := c], 0, [], order)
  }

  function QueueState(i: nat): (s: State<int>)
    ensures s.phases.Keys == QUEUE.Keys
  {
    match i
    case 0 => Queue(Idle, Idle, Idle, UNLOCKED, [])
    case 1 => Queue(Waiting, Idle, Idle, RWMutex({}, Some(0), false, {}), [])
    case 2 => Queue(Inside(0), Idle, Idle, RWMutex({}, Some(0), true, {}), [])
    case 3 => Queue(Inside(0), Waiting, Idle, RWMutex({}, Some(0), true, {1}), [])
    case 4 => Queue(Inside(0), Waiting, Waiting, RWMutex({}, Some(0), true, {1}), [])
    case 5 => Queue(Finished, Waiting, Waiting, RWMutex({}, None, false, {1}), [WholeReset(0)])
    case _ => Queue(Finished, Waiting, Inside(0), RWMutex({2}, None, false, {1}), [WholeReset(0)])
  }

  lemma QueueMoves(i: nat)
    requires i < 6
    ensures Moves(QUEUE, QueueState(i), QUEUE_RUN[i], QueueState(i + 1))
  {
    var n, m := Next(QUEUE, QueueState(i), QUEUE_RUN[i]), QueueState(i + 1);
    assert n.phases == m.phases && n.order == m.order;
    assert n.gate.value.readers == m.gate.value.readers && n.gate.value.queued == m.gate.value.queued;
  }

  /** An operation started after a reset's call is inside before that reset. */
  lemma LaterOperationGetsIn()
    ensures Feasible(QUEUE, Start(QUEUE, true, 0), QUEUE_RUN)
    ensures var s := Ran(QUEUE, Start(QUEUE, true, 0), QUEUE_RUN); s.phases[1].Waiting? && s.phases[2] == Inside(0)
  {
    assert Start(QUEUE, true, 0) == QueueState(0) by {
      assert Start(QUEUE, true, 0).phases == QueueState(0).phases;
    }
    var states := seq(7, i requires 0 <= i < 7 => QueueState(i));
    forall i | 0 <= i < 6
      ensures Moves(QUEUE, states[i], QUEUE_RUN[i], states[i + 1])
    {
      QueueMoves(i);
    }
    PassesRuns(QUEUE, states, QUEUE_RUN);
  }

  /** After any run, a reset's call keeps every operation out until it enters exactly when no other
      reset is at the gate, or no operation is left to come. */
  lemma CallKeepsOperationsOutIff<A>(ps: map<nat, Program<A>>, app: A, before: seq<Action>, t: nat)
    requires Feasible(ps, Start(ps, true, app), before) && t in ps && ps[t].exclusive
    requires Enabled(ps, Ran(ps, Start(ps, true, app), before), Call(t))
    ensures var s := Ran(ps, Start(ps, true, app), before);
            && s.gate.Some?
            && (KeepsOperationsOut(ps, s, t)
                <==> s.gate.value.announced.None? || forall u :: u in ps ==> !YetToEnter(ps, s, u))
  {
    FromStart(ps, app, before);
    KeepsOutIff(ps, Ran(ps, Start(ps, true, app), before), t);
  }

  lemma KeepsOutIff<A>(ps: map<nat, Program<A>>, s: State<A>, t: nat)
    requires Guarded(ps, s) && DoneInRange(ps, s) && t in ps && ps[t].exclusive && Enabled(ps, s, Call(t))
    ensures KeepsOperationsOut(ps, s, t)
            <==> s.gate.value.announced.None? || forall u :: u in ps ==> !YetToEnter(ps, s, u)
  {
    GuardedKept(ps, s, Call(t));
    var s1 := Next(ps, s, Call(t));
    if s.gate.value.announced.None? {
      forall actions | Feasible(ps, s1, actions) && Enter(t) !in actions
        ensures forall u :: Enter(u) !in actions
      {
        DrainsExactlyInFlight(ps, s1, actions, t);
      }
    } else if u :| u in ps && YetToEnter(ps, s, u) {
      var actions, n := OperationPassesQueuedReset(ps, s, t, u);
    } else {
      forall actions | Feasible(ps, s1, actions)
        ensures forall u :: u in ps && !ps[u].exclusive ==> Enter(u) !in actions
      {
        NobodyLeftToEnter(ps, s1, actions);
      }
    }
  }

  lemma {:induction false} NobodyLeftToEnter<A>(ps: map<nat, Program<A>>, s: State<A>, actions: seq<Action>)
    requires s.phases.Keys == ps.Keys && Feasible(ps, s, actions)
    requires forall u :: u in ps ==> !YetToEnter(ps, s, u)
    ensures forall u :: u in ps && !ps[u].exclusive ==> Enter(u) !in actions
    decreases |actions|
  {
    if actions != [] {
      var n := Next(ps, s, actions[0]);
      assert forall u :: u in ps ==> !YetToEnter(ps, n, u);
      NobodyLeftToEnter(ps, n, actions[1..]);
      assert !YetToEnter(ps, s, actions[0].thread);
      assert actions == [actions[0]] + actions[1..];
    }
  }

  // ---- The nil gate ----

  /** Two registers; a reset clears them one after the other, an operation sets both at once. */
  const RACE := map[
    0 := Program(true, [(p: (int, int)) => (0, p.1), (p: (int, int)) => (p.0, 0)]),
    1 := Program(false, [(p: (int, int)) => (1, 1)])]

  const RACE_RUN := [Call(0), Enter(0), Step(0), Call(1), Enter(1), Step(1), Step(0), Leave(0), Leave(1)]

  function At(a: Phase, b: Phase, app: (int, int), trace: seq<Entry>, order: seq<Item>): (s: State<(int, int)>)
    ensures s.phases.Keys == RACE.Keys
  {
    State(None, map[0 := a, 1 := b], app, trace, order)
  }

  /** The states the run goes through. */
  function RaceState(i: nat): (s: State<(int, int)>)
    ensures s.phases.Keys == RACE.Keys
  {
    var first, second := [Entry(0, 0)], [Entry(0, 0), Entry(1, 0)];
    match i
    case 0 => At(Idle, Idle, (5, 5), [], [])
    case 1 => At(Waiting, Idle, (5, 5), [], [])
    case 2 => At(Inside(0), Idle, (5, 5), [], [])
    case 3 => At(Inside(1), Idle, (0, 5), first, [])
    case 4 => At(Inside(1), Waiting, (0, 5), first, [])
    case 5 => At(Inside(1), Inside(0), (0, 5), first, [])
    case 6 => At(Inside(1), Inside(1), (1, 1), second, [OpStep(1, 0)])
    case 7 => At(Inside(2), Inside(1), (1, 0), second + [Entry(0, 1)], [OpStep(1, 0)])
    case 8 => At(Finished, Inside(1), (1, 0), second + [Entry(0, 1)], [OpStep(1, 0), WholeReset(0)])
    case _ => At(Finished, Finished, (1, 0), second + [Entry(0, 1)], [OpStep(1, 0), WholeReset(0)])
  }

  lemma RaceMoves(i: nat)
    requires i < 9
    ensures Moves(RACE, RaceState(i), RACE_RUN[i], RaceState(i + 1))
  {
    if i < 5 {
      RaceMovesEarly(i);
    } else {
      RaceMovesLate(i);
    }
  }

  lemma RaceMovesEarly(i: nat)
    requires i < 5
    ensures Moves(RACE, RaceState(i), RACE_RUN[i], RaceState(i + 1))
  {
    var n := Next(RACE, RaceState(i), RACE_RUN[i]);
    assert n.phases == RaceState(i + 1).phases;
    assert n.trace == RaceState(i + 1).trace && n.order == RaceState(i + 1).order;
  }

  lemma RaceMovesLate(i: nat)
    requires 5 <= i < 9
    ensures Moves(RACE, RaceState(i), RACE_RUN[i], RaceState(i + 1))
  {
    var n := Next(RACE, RaceState(i), RACE_RUN[i]);
    assert n.phases == RaceState(i + 1).phases;
    assert n.trace == RaceState(i + 1).trace && n.order == RaceState(i + 1).order;
  }

  /** With a nil gate the same two goroutines can finish in a state no serial order explains, be it by
      its steps or by where it ends: the operation's step lands between the reset's two. */
  lemma NilGateIsNotAtomic(order: seq<Item>)
    ensures Feasible(RACE, Start(RACE, false, (5, 5)), RACE_RUN)
    ensures var s := Ran(RACE, Start(RACE, false, (5, 5)), RACE_RUN);
            && s.phases[0].Finished? && s.phases[1].Finished? && s.app == (1, 0)
            && !SerialAccount(RACE, (5, 5), s, order)
            && (HoldsBoth(order) ==>
                  (forall e :: e in Flatten(RACE, order) ==> ProperEntry(RACE, e))
                  && Replay(RACE, (5, 5), Flatten(RACE, order)) != s.app)
  {
    RaceEnds();
    RaceUnexplained(order);
    if HoldsBoth(order) {
      NoOrderEndsThere(order);
      assert (1, 0) !in {(1, 1), (0, 0)};
    }
  }

  /** The order holds the reset and the operation once each. */
  ghost predicate HoldsBoth(order: seq<Item>) {
    && (forall x :: x in order ==> x.thread in RACE && (x.WholeReset? <==> RACE[x.thread].exclusive))
    && Resets(order, 0) == 1 && OpSteps(order, 1) == [0]
  }

  lemma {:induction false} BothCounted(order: seq<Item>)
    requires forall x :: x in order ==> x.thread in RACE && (x.WholeReset? <==> RACE[x.thread].exclusive)
    ensures |order| == Resets(order, 0) + |OpSteps(order, 1)|
  {
    if order != [] {
      var init, last := order[..|order| - 1], order[|order| - 1];
      assert order == init + [last];
      assert last in order;
      BothCounted(init);
    }
  }

  lemma CountsOfTwo(x: Item, y: Item)
    ensures Resets([x, y], 0) == (if x == WholeReset(0) then 1 else 0) + if y == WholeReset(0) then 1 else 0
    ensures OpSteps([x, y], 1) == (if x.OpStep? && x.thread == 1 then [x.step] else [])
                                  + if y.OpStep? && y.thread == 1 then [y.step] else []
  {
    assert [x, y][..1] == [x] && [x][..0] == [];
    assert Resets([x], 0) == if x == WholeReset(0) then 1 else 0;
    assert OpSteps([x], 1) == if x.OpStep? && x.thread == 1 then [x.step] else [];
  }

  lemma OnlyTwoOrders(order: seq<Item>)
    requires HoldsBoth(order)
    ensures order == [WholeReset(0), OpStep(1, 0)] || order == [OpStep(1, 0), WholeReset(0)]
  {
    BothCounted(order);
    var x, y := order[0], order[1];
    assert order == [x, y] && x in order && y in order;
    CountsOfTwo(x, y);
    if x.WholeReset? {
      assert x == WholeReset(0);
      assert y.OpStep? && OpSteps([x, y], 1)[0] == y.step;
    } else {
      assert x.OpStep? && x.thread == 1;
      assert y == WholeReset(0) && OpSteps([x, y], 1)[0] == x.step;
    }
  }

  function Does<A>(ps: map<nat, Program<A>>, e: Entry, p: A): A
    requires ProperEntry(ps, e)
  {
    ps[e.thread].steps[e.step](p)
  }

  lemma RaceDoes(p: (int, int))
    ensures ProperEntry(RACE, Entry(0, 0)) && Does(RACE, Entry(0, 0), p) == (0, p.1)
    ensures ProperEntry(RACE, Entry(0, 1)) && Does(RACE, Entry(0, 1), p) == (p.0, 0)
    ensures ProperEntry(RACE, Entry(1, 0)) && Does(RACE, Entry(1, 0), p) == (1, 1)
  {
  }

  lemma ReplayAppend<A>(ps: map<nat, Program<A>>, app: A, trace: seq<Entry>, e: Entry)
    requires ProperEntry(ps, e) && forall x :: x in trace ==> ProperEntry(ps, x)
    ensures Replay(ps, app, trace + [e]) == Does(ps, e, Replay(ps, app, trace))
  {
    assert (trace + [e])[..|trace|] == trace;
  }

  lemma ReplayThree<A>(ps: map<nat, Program<A>>, app: A, a: Entry, b: Entry, c: Entry)
    requires ProperEntry(ps, a) && ProperEntry(ps, b) && ProperEntry(ps, c)
    ensures Replay(ps, app, [a, b, c]) == Does(ps, c, Does(ps, b, Does(ps, a, app)))
  {
    ReplayAppend(ps, app, [], a);
    ReplayAppend(ps, app, [a], b);
    ReplayAppend(ps, app, [a, b], c);
    assert [] + [a] == [a] && [a] + [b] == [a, b] && [a, b] + [c] == [a, b, c];
  }

  /** The run ends in (1, 0); one after the other, reset and operation end in (1, 1) or (0, 0). */
  lemma NoOrderEndsThere(order: seq<Item>)
    requires HoldsBoth(order)
    ensures (forall e :: e in Flatten(RACE, order) ==> ProperEntry(RACE, e))
    ensures Replay(RACE, (5, 5), Flatten(RACE, order)) in {(1, 1), (0, 0)}
  {
    var a, b, o := Entry(0, 0), Entry(0, 1), Entry(1, 0);
    OnlyTwoOrders(order);
    FlattenTwo(order[0], order[1]);
    assert order == [order[0], order[1]] && Steps(0, 2) == [a, b];
    RaceDoes((5, 5));
    if order[0].WholeReset? {
      assert Flatten(RACE, order) == [a, b, o];
      ReplayThree(RACE, (5, 5), a, b, o);
      RaceDoes((0, 5));
      RaceDoes((0, 0));
    } else {
      assert Flatten(RACE, order) == [o, a, b];
      ReplayThree(RACE, (5, 5), o, a, b);
      RaceDoes((1, 1));
      RaceDoes((0, 1));
    }
  }

  function Stands(x: Item): seq<Entry> {
    if x.OpStep? then [Entry(x.thread, x.step)] else Steps(0, 2)
  }

  lemma FlattenTwo(x: Item, y: Item)
    requires x.thread in RACE && y.thread in RACE && (x.WholeReset? ==> x.thread == 0) && (y.WholeReset? ==> y.thread == 0)
    ensures Flatten(RACE, [x, y]) == Stands(x) + Stands(y)
  {
    FlattenAppend(RACE, [], x);
    FlattenAppend(RACE, [x], y);
    assert [] + [x] == [x] && [x] + [y] == [x, y];
    assert [] + Stands(x) == Stands(x);
  }

  lemma RaceUnexplained(order: seq<Item>)
    ensures RaceState(9).app == (1, 0) && !SerialAccount(RACE, (5, 5), RaceState(9), order)
  {
    assert RaceState(9).trace == [Entry(0, 0), Entry(1, 0), Entry(0, 1)];
    if SerialAccount(RACE, (5, 5), RaceState(9), order) {
      assert Flatten(RACE, order) == RaceState(9).trace;
      NoSerialRace(order);
    }
  }

  lemma RaceEnds()
    ensures Feasible(RACE, Start(RACE, false, (5, 5)), RACE_RUN)
    ensures Ran(RACE, Start(RACE, false, (5, 5)), RACE_RUN) == RaceState(9)
  {
    assert Start(RACE, false, (5, 5)).phases == RaceState(0).phases;
    var states := seq(10, i requires 0 <= i < 10 => RaceState(i));
    forall i | 0 <= i < 9
      ensures Moves(RACE, states[i], RACE_RUN[i], states[i + 1])
    {
      RaceMoves(i);
    }
    PassesRuns(RACE, states, RACE_RUN);
  }

  lemma NoSerialRace(order: seq<Item>)
    requires forall x :: x in order ==> x.thread in RACE && (x.WholeReset? <==> RACE[x.thread].exclusive)
    ensures Flatten(RACE, order) != [Entry(0, 0), Entry(1, 0), Entry(0, 1)]
  {
    if order != [] {
      var last := order[|order| - 1];
      assert last in order;
      var init, flat := Flatten(RACE, order[..|order| - 1]), Flatten(RACE, order);
      if last.WholeReset? {
        assert flat == init + Steps(0, 2);
        assert flat[|flat| - 2] == Entry(0, 0);
      } else {
        assert flat[|flat| - 1] == Entry(1, last.step);
      }
    }
  }
}
