/** What the gate leaves free: any number of operations side by side, and everything without a gate. */
module GateOpen {
  import opened Prelude
  import opened Gate
  import opened GateTheorems

  /** A waiting operation may enter exactly when no reset has announced itself, whoever else is inside. */
  lemma OperationMayEnterIff<A>(ps: map<nat, Program<A>>, s: State<A>, u: nat)
    requires Guarded(ps, s) && u in ps && !ps[u].exclusive && s.phases[u].Waiting?
    ensures Enabled(ps, s, Enter(u)) <==> s.gate.value.announced.None?
  {
  }

  /** A thread inside is never held up: it can take its next step, or leave after the last. */
  lemma InsideMayProceed<A>(ps: map<nat, Program<A>>, s: State<A>, u: nat)
    requires s.phases.Keys == ps.Keys && DoneInRange(ps, s) && u in ps && s.phases[u].Inside?
    ensures Enabled(ps, s, Step(u)) <==> s.phases[u].done < |ps[u].steps|
    ensures Enabled(ps, s, Leave(u)) <==> s.phases[u].done == |ps[u].steps|
  {
  }

  /** Without a gate nothing waits, and nothing in the lock moves. */
  lemma NilGateHoldsNothingBack<A>(ps: map<nat, Program<A>>, s: State<A>, u: nat)
    requires s.phases.Keys == ps.Keys && s.gate.None? && u in ps
    ensures s.phases[u].Idle? ==> Enabled(ps, s, Call(u)) && Next(ps, s, Call(u)).gate.None?
    ensures s.phases[u].Waiting? ==>
              Enabled(ps, s, Enter(u)) && Next(ps, s, Enter(u)) == s.(phases := s.phases[u := Inside(0)])
  {
  }

  /** Any set of operations can be inside all at the same time. */
  lemma {:induction false} OperationsRunTogether<A>(ps: map<nat, Program<A>>, app: A, ops: set<nat>)
    returns (actions: seq<Action>, n: State<A>)
    requires ops <= ps.Keys && forall u :: u in ops ==> !ps[u].exclusive
    ensures Leads(ps, Start(ps, true, app), actions, n, ops)
    ensures n.gate == Some(UNLOCKED.(readers := ops)) && forall u :: u in ops ==> n.phases[u] == Inside(0)
    decreases |ops|
  {
    var start := Start(ps, true, app);
    if ops == {} {
      actions, n := [], start;
    } else {
      var u :| u in ops;
      var first, m := OperationsRunTogether(ps, app, ops - {u});
      var rest;
      rest, n := WalksIn(ps, m, u);
      assert (ops - {u}) + {u} == ops;
      LeadsConcat(ps, start, first, m, rest, n, ops - {u}, {u}, ops);
      actions := first + rest;
    }
  }
}
