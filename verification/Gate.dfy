/** The reset gate: operations on the shared side, resets on the exclusive side of one
    read-write lock, interleaved in every way the lock's documented contract allows. */
module Gate {
  import opened Prelude

  /** The lock. A writer that has announced itself keeps new readers out, and is inside once
      `held`; the others wait in `queued` for the lock among writers. */
  datatype RWMutex = RWMutex(readers: set<nat>, announced: Option<nat>, held: bool, queued: set<nat>)

  const UNLOCKED := RWMutex({}, None, false, {})

  /** What one goroutine does while it holds the gate: an ordinary operation, or a reset. */
  datatype Program<!A> = Program(exclusive: bool, steps: seq<A -> A>)

  datatype Phase = Idle | Waiting | Inside(done: nat) | Finished

  datatype Entry = Entry(thread: nat, step: nat)

  /** One step of an operation, or all steps of a reset. */
  datatype Item = OpStep(thread: nat, step: nat) | WholeReset(thread: nat)

  /** `gate` is absent for a nil gate. `trace` and `order` are history: every step in the order
      executed, and the serial order the theorems exhibit. */
  datatype State<A> = State(gate: Option<RWMutex>, phases: map<nat, Phase>, app: A, trace: seq<Entry>, order: seq<Item>)

  datatype Action =
    | Call(thread: nat)
    | Announce(thread: nat)
    | Enter(thread: nat)
    | Step(thread: nat)
    | Leave(thread: nat)

  function Start<A>(ps: map<nat, Program<A>>, gated: bool, app: A): State<A> {
    State(if gated then Some(UNLOCKED) else None, map t | t in ps :: Idle, app, [], [])
  }

  predicate Enabled<A>(ps: map<nat, Program<A>>, s: State<A>, a: Action)
    requires s.phases.Keys == ps.Keys
  {
    && a.thread in ps
    && var t, phase := a.thread, s.phases[a.thread];
       match a
       case Call(_) => phase.Idle?
       case Announce(_) => s.gate.Some? && t in s.gate.value.queued && s.gate.value.announced.None?
       case Enter(_) =>
         phase.Waiting?
         && (s.gate.Some? ==>
               if ps[t].exclusive
               then s.gate.value.announced == Some(t) && !s.gate.value.held && s.gate.value.readers == {}
               else s.gate.value.announced.None?)
       case Step(_) => phase.Inside? && phase.done < |ps[t].steps|
       case Leave(_) => phase.Inside? && phase.done == |ps[t].steps|
  }

  function Locked(m: RWMutex, exclusive: bool, a: Action): RWMutex {
    match a
    case Call(t) =>
      if !exclusive then m
      else if m.announced.None? then m.(announced := Some(t)) else m.(queued := m.queued + {t})
    case Announce(t) => m.(announced := Some(t), queued := m.queued - {t})
    case Enter(t) => if exclusive then m.(held := true) else m.(readers := m.readers + {t})
    case Step(_) => m
    case Leave(t) => if exclusive then m.(announced := None, held := false) else m.(readers := m.readers - {t})
  }

  function Next<A>(ps: map<nat, Program<A>>, s: State<A>, a: Action): (r: State<A>)
    requires s.phases.Keys == ps.Keys && Enabled(ps, s, a)
    ensures r.phases.Keys == ps.Keys
  {
    var t, p := a.thread, ps[a.thread];
    var locked := s.(gate := if s.gate.None? then None else Some(Locked(s.gate.value, p.exclusive, a)));
    match a
    case Call(_) => locked.(phases := s.phases[t := Waiting])
    case Announce(_) => locked
    case Enter(_) => locked.(phases := s.phases[t := Inside(0)])
    case Step(_) =>
      var k := s.phases[t].done;
      locked.(phases := s.phases[t := Inside(k + 1)],
              app := p.steps[k](s.app),
              trace := s.trace + [Entry(t, k)],
              order := if p.exclusive then s.order else s.order + [OpStep(t, k)])
    case Leave(_) =>
      locked.(phases := s.phases[t := Finished],
              order := if p.exclusive then s.order + [WholeReset(t)] else s.order)
  }

  predicate Feasible<A>(ps: map<nat, Program<A>>, s: State<A>, actions: seq<Action>)
    requires s.phases.Keys == ps.Keys
    decreases |actions|
  {
    actions == [] || (Enabled(ps, s, actions[0]) && Feasible(ps, Next(ps, s, actions[0]), actions[1..]))
  }

  function Ran<A>(ps: map<nat, Program<A>>, s: State<A>, actions: seq<Action>): (r: State<A>)
    requires s.phases.Keys == ps.Keys && Feasible(ps, s, actions)
    ensures r.phases.Keys == ps.Keys
    decreases |actions|
  {
    if actions == [] then s else Ran(ps, Next(ps, s, actions[0]), actions[1..])
  }

  // ---- What a serial order does ----

  predicate ProperEntry<A>(ps: map<nat, Program<A>>, e: Entry) {
    e.thread in ps && e.step < |ps[e.thread].steps|
  }

  function Replay<A>(ps: map<nat, Program<A>>, app: A, trace: seq<Entry>): A
    requires forall e :: e in trace ==> ProperEntry(ps, e)
  {
    if trace == [] then app
    else
      var e := trace[|trace| - 1];
      assert ProperEntry(ps, e);
      ps[e.thread].steps[e.step](Replay(ps, app, trace[..|trace| - 1]))
  }

  function Steps(t: nat, n: nat): (r: seq<Entry>)
    ensures |r| == n && forall i :: 0 <= i < n ==> r[i] == Entry(t, i)
  {
    seq(n, i requires 0 <= i < n => Entry(t, i))
  }

  /** The steps an order stands for, each reset's steps unbroken. */
  function Flatten<A>(ps: map<nat, Program<A>>, order: seq<Item>): seq<Entry> {
    if order == [] then []
    else
      var init, last := Flatten(ps, order[..|order| - 1]), order[|order| - 1];
      match last
      case OpStep(t, k) => init + [Entry(t, k)]
      case WholeReset(t) => init + if t in ps then Steps(t, |ps[t].steps|) else []
  }

  /** An operation's steps so far appear in `order` once each and in program order. */
  function OpSteps(order: seq<Item>, t: nat): seq<nat> {
    if order == [] then []
    else
      var init, last := OpSteps(order[..|order| - 1], t), order[|order| - 1];
      if last.OpStep? && last.thread == t then init + [last.step] else init
  }

  function Resets(order: seq<Item>, t: nat): nat {
    if order == [] then 0
    else Resets(order[..|order| - 1], t) + if order[|order| - 1] == WholeReset(t) then 1 else 0
  }

  /** Between two steps of one operation there is no reset. */
  ghost predicate NoStraddling(order: seq<Item>) {
    forall i, j, k :: 0 <= i < j < k < |order| && order[i].OpStep? && order[k].OpStep? && order[i].thread == order[k].thread
                      ==> !order[j].WholeReset?
  }

  function Progress(phase: Phase, total: nat): nat {
    match phase
    case Inside(done) => done
    case Finished => total
    case _ => 0
  }

  // ---- Invariants ----

  /** The lock's bookkeeping matches where the threads are. */
  ghost predicate Guarded<A>(ps: map<nat, Program<A>>, s: State<A>) {
    && s.phases.Keys == ps.Keys
    && s.gate.Some?
    && var m := s.gate.value;
       && (forall t :: t in ps && ps[t].exclusive && s.phases[t].Inside? ==> m.announced == Some(t) && m.held)
       && (forall t :: t in m.readers <==> t in ps && !ps[t].exclusive && s.phases[t].Inside?)
       && (m.held ==> m.announced.Some? && m.readers == {} && m.announced.value in ps && ps[m.announced.value].exclusive
                      && s.phases[m.announced.value].Inside?)
       && (m.announced.Some? && !m.held ==>
             m.announced.value in ps && ps[m.announced.value].exclusive && s.phases[m.announced.value].Waiting?)
       && (forall t :: t in m.queued ==> t in ps && ps[t].exclusive && s.phases[t].Waiting? && m.announced != Some(t))
       && (forall t :: t in ps && ps[t].exclusive && s.phases[t].Waiting? ==> m.announced == Some(t) || t in m.queued)
  }

  ghost predicate ResetInside<A>(s: State<A>) {
    s.gate.Some? && s.gate.value.held
  }

  /** The steps of the reset now inside, which the serial order does not have yet. */
  ghost function Unordered<A>(s: State<A>): seq<Entry> {
    if ResetInside(s) && s.gate.value.announced.Some? && s.gate.value.announced.value in s.phases
       && s.phases[s.gate.value.announced.value].Inside?
    then Steps(s.gate.value.announced.value, s.phases[s.gate.value.announced.value].done)
    else []
  }

  ghost predicate DoneInRange<A>(ps: map<nat, Program<A>>, s: State<A>) {
    forall t :: t in ps && t in s.phases && s.phases[t].Inside? ==> s.phases[t].done <= |ps[t].steps|
  }

  /** Thread `t` has contributed to the order what its program and phase say. */
  ghost predicate Contributed<A>(ps: map<nat, Program<A>>, s: State<A>, t: nat)
    requires t in ps && t in s.phases
  {
    if ps[t].exclusive then Resets(s.order, t) == (if s.phases[t].Finished? then 1 else 0)
    else
      && |OpSteps(s.order, t)| == Progress(s.phases[t], |ps[t].steps|)
      && forall i :: 0 <= i < |OpSteps(s.order, t)| ==> OpSteps(s.order, t)[i] == i
  }

  /** Items are of the kind their thread's program is, and only threads let in have any. */
  ghost predicate WellTyped<A>(ps: map<nat, Program<A>>, s: State<A>) {
    forall x :: x in s.order ==>
      x.thread in ps && x.thread in s.phases
      && (x.WholeReset? <==> ps[x.thread].exclusive)
      && !s.phases[x.thread].Idle? && !s.phases[x.thread].Waiting?
  }

  /** While an operation is inside, no reset has come after any of its steps. */
  ghost predicate NoResetSince<A>(s: State<A>) {
    forall i, j :: 0 <= i < j < |s.order| && s.order[i].OpStep? && s.order[i].thread in s.phases
                   && s.phases[s.order[i].thread].Inside?
      ==> !s.order[j].WholeReset?
  }

  ghost predicate Ordered<A>(ps: map<nat, Program<A>>, s: State<A>) {
    && s.phases.Keys == ps.Keys
    && DoneInRange(ps, s)
    && s.trace == Flatten(ps, s.order) + Unordered(s)
    && (forall t :: t in ps ==> Contributed(ps, s, t))
    && WellTyped(ps, s)
    && NoStraddling(s.order)
    && NoResetSince(s)
  }

  ghost predicate Executed<A>(ps: map<nat, Program<A>>, app: A, s: State<A>) {
    && (forall e :: e in s.trace ==> ProperEntry(ps, e))
    && s.app == Replay(ps, app, s.trace)
  }
}
