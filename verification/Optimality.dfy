/**
 What the answers of the SAT solver prove about the original problem: lower and
 upper bounds, hardening, and optimality at every point where `solve` returns.
 */
module Optimality {
  import opened Cnf
  import opened Definitions
  import opened Totalizer
  import opened Objective
  import opened Engine
  import opened Steps

  /** The best cost of the original problem, with an assignment that has it. */
  ghost predicate Optimal(p: Problem, best: Assignment, cost: nat) {
    && Sat(best, p.hard) && CostOf(p.soft, best) == cost
    && forall x: Assignment | Sat(x, p.hard) :: CostOf(p.soft, x) >= cost
  }

  ghost predicate Infeasible(p: Problem) {
    forall x: Assignment :: !Sat(x, p.hard)
  }

  /** The upper bound is backed by a solution, and nothing cheaper was cut off. */
  ghost predicate Witnessed(p: Problem, cut: Option<nat>, ub: Option<nat>, solution: Assignment) {
    && (ub.Some? ==> Sat(solution, p.hard) && CostOf(p.soft, solution) <= ub.value)
    && CutOk(cut, ub)
  }

  predicate CutOk(cut: Option<nat>, ub: Option<nat>) {
    cut.Some? ==> ub.Some? && ub.value <= cut.value
  }

  lemma CutMoves(p: Problem, cut: Option<nat>, ub: Option<nat>, solution: Assignment)
    requires Witnessed(p, cut, ub, solution)
    ensures CutOk(cut, ub) && Witnessed(p, ub, ub, solution)
  {
  }

  // ----- bounds on the objective -----

  lemma {:induction false} TermBelowSum(f: Formula, view: View, n: nat, v: nat)
    requires WfCards(f) && 1 <= v <= n
    ensures VarSum(f, view, n) >= VarTerm(f, view, v)
  {
    if v < n {
      TermBelowSum(f, view, n - 1, v);
    }
  }

  /** One falsified soft literal already costs its weight on top of the lower bound. */
  lemma FalsifiedCosts(w: World, l: Lit, view: View)
    requires Base(w) && WeightOf(w.f.poids, l) > 0 && Falsified(view, l)
    ensures WfCards(w.f) && Value(w.f, view, w.s.nVars) >= w.f.cost + WeightOf(w.f.poids, l)
  {
    hide Base, VarSum, PendingSum, Tail;
    BaseWf(w);
    SoftFacts(w, l);
    TermBelowSum(w.f, view, w.s.nVars, l.v);
    assert SoftLit(w.f, l.v) == l;
  }

  /** The canonical extension of any assignment of the inputs. */
  ghost function Canonical(w: World, x: Assignment): (e: Assignment)
    requires Base(w)
    ensures Respects(e, w.s.defs) && Agree(x, e, w.s.inputs)
    ensures CostOf(w.p.soft, e) == CostOf(w.p.soft, x) && (Sat(e, w.p.hard) <==> Sat(x, w.p.hard))
  {
    ExtendRespects(w.s.defs, x, w.s.inputs, w.s.nVars + 1);
    CostAgree(w.p, x, Extend(w.s.defs, x, w.s.nVars + 1), w.s.inputs);
    Extend(w.s.defs, x, w.s.nVars + 1)
  }

  /** Whoever is cheaper than the cut-off costs at least the lower bound. */
  lemma LowerBound(w: World, x: Assignment)
    requires Inv(w) && Sat(x, w.p.hard) && Cheaper(w.p, w.cut, x)
    ensures CostOf(w.p.soft, x) >= w.f.cost
  {
    var e := Canonical(w, x);
    assert Sat(e, w.s.clauses);
  }

  /** Without hardening the lower bound never exceeds the optimum, whether or not a solution is known. */
  lemma NeverAboveOptimum(w: World)
    requires Inv(w) && w.cut.None?
    ensures forall x: Assignment | Sat(x, w.p.hard) :: w.f.cost <= CostOf(w.p.soft, x)
  {
    hide Base, Identity;
    forall x: Assignment | Sat(x, w.p.hard) ensures w.f.cost <= CostOf(w.p.soft, x) {
      LowerBound(w, x);
    }
  }

  /** The lower bound reached the upper bound: the solution found is optimal. */
  lemma BoundsMeet(w: World, ub: nat, solution: Assignment)
    requires Inv(w) && w.f.cost >= ub && Witnessed(w.p, w.cut, Some(ub), solution)
    ensures Optimal(w.p, solution, ub)
  {
    hide Base, Identity;
    forall x: Assignment | Sat(x, w.p.hard) ensures CostOf(w.p.soft, x) >= ub {
      if CostOf(w.p.soft, x) < ub {
        LowerBound(w, x);
      }
    }
  }

  /** The clauses became unsatisfiable: nothing beats the solution found, or there is none. */
  lemma ClausesUnsat(w: World, ub: Option<nat>, solution: Assignment)
    requires Inv(w) && Unsat(w.s.clauses, {}) && Witnessed(w.p, w.cut, ub, solution)
    ensures ub.Some? ==> Optimal(w.p, solution, ub.value)
    ensures ub.None? ==> Infeasible(w.p)
  {
    assert forall e: Assignment :: AllTrue(e, {}) && !Sat(e, w.s.clauses);
    forall x: Assignment | Sat(x, w.p.hard) ensures !Cheaper(w.p, w.cut, x) {
      if Cheaper(w.p, w.cut, x) {
        var _ := Canonical(w, x);
      }
    }
  }

  // ----- models -----

  lemma BaseForces(w: World, m: Assignment)
    requires Base(w) && Sat(m, w.s.clauses)
    ensures WfDefs(w.s.defs, w.s.inputs) && OneWay(m, w.s.defs)
    ensures Sat(Canonical(w, m), w.s.clauses)
  {
  }

  /** A soft literal true in a model is true in its canonical extension. */
  lemma SoftLifts(w: World, m: Assignment, l: Lit)
    requires Base(w) && Sat(m, w.s.clauses) && WeightOf(w.f.poids, l) > 0 && True(m, l)
    ensures True(Canonical(w, m), l)
  {
    hide Base;
    BaseForces(w, m);
    SoftFacts(w, l);
    LeastExtension(m, Canonical(w, m), l, w.s.defs, w.s.inputs);
  }

  lemma {:induction false} AllSatisfied(w: World, e: Assignment, n: nat)
    requires Base(w) && Respects(e, w.s.defs) && w.f.relaxing == {}
    requires forall l: Lit | WeightOf(w.f.poids, l) > 0 :: True(e, l)
    ensures VarSum(w.f, Some(e), n) == 0
  {
    hide Base, Tail, Respects;
    BaseWf(w);
    if n > 0 {
      AllSatisfied(w, e, n - 1);
      var l := SoftLit(w.f, n);
      if WeightOf(w.f.poids, Lit(n, true)) != 0 {
        assert WeightOf(w.f.poids, l) > 0 && True(e, l);
        if n in w.f.a2c {
          TrueOwesNothing(w, l, e);
        }
      }
      assert VarTerm(w.f, Some(e), n) == 0;
    }
  }

  /**
   A model with every soft literal true, while nothing is pending: its cost is the lower
   bound, so it is optimal. The clauses fix auxiliary variables in one direction only;
   the canonical extension of the model's inputs is what pays.
   */
  lemma ModelOptimal(w: World, m: Assignment)
    requires Inv(w) && w.f.pending == [] && w.f.relaxing == {}
    requires Sat(m, w.s.clauses) && forall l: Lit | WeightOf(w.f.poids, l) > 0 :: True(m, l)
    requires w.cut.Some? ==> w.f.cost < w.cut.value
    ensures Optimal(w.p, m, w.f.cost)
  {
    var e := Canonical(w, m);
    BaseForces(w, m);
    forall l: Lit | WeightOf(w.f.poids, l) > 0 ensures True(e, l) {
      SoftLifts(w, m, l);
    }
    AllSatisfied(w, e, w.s.nVars);
    assert CostOf(w.p.soft, m) == w.f.cost;
    assert Sat(m, w.p.hard);
    hide Base, Identity;
    forall x: Assignment | Sat(x, w.p.hard) ensures CostOf(w.p.soft, x) >= w.f.cost {
      if Cheaper(w.p, w.cut, x) {
        LowerBound(w, x);
      }
    }
  }

  // ----- hardening -----

  /** A literal as heavy as the gap between the bounds may be made hard. */
  lemma HardenAdmissible(w: World, l: Lit)
    requires Inv(w) && w.cut.Some? && WeightOf(w.f.poids, l) > 0
    requires w.f.cost + WeightOf(w.f.poids, l) >= w.cut.value
    ensures Admissible(w.s, w.p, w.cut, [l])
  {
    forall m: Assignment, e: Assignment |
      Sat(m, w.s.clauses) && SatClause(m, [l]) && Respects(e, w.s.defs) && Agree(m, e, w.s.inputs)
      ensures SatClause(e, [l])
    {
      SoftFacts(w, l);
      BaseForces(w, m);
      LeastExtension(m, e, l, w.s.defs, w.s.inputs);
      assert l in [l];
    }
    forall e: Assignment |
      Respects(e, w.s.defs) && Sat(e, w.s.clauses) && Sat(e, w.p.hard) && Cheaper(w.p, w.cut, e)
      ensures SatClause(e, [l])
    {
      if !True(e, l) {
        FalsifiedCosts(w, l, Some(e));
      }
      assert l in [l];
    }
  }

  // ----- upper bounds from models -----

  /**
   `LocalOptimizer2`: the cost of a later model under the weights of an earlier state whose
   counters are exhausted is at least its original cost.
   */
  lemma ModelUpperBound(w0: World, w: World, m: Assignment)
    requires Inv(w0) && Step(w0, w) && Exhausted(w0.f)
    requires Sat(m, w.s.clauses)
    ensures Sat(m, w.p.hard) && CostOf(w.p.soft, m) <= Value(w0.f, Some(m), w0.s.nVars)
  {
    var e := Canonical(w, m);
    BaseForces(w, m);
    RespectsSubset(e, w0.s.defs, w.s.defs);
    assert Sat(e, w0.s.clauses) && Sat(m, w0.s.clauses);
    BaseForces(w0, m);
    ShortOwesNothing(w0.f.pending, Some(m));
    ShortOwesNothing(w0.f.pending, Some(e));
    hide Inv, Identity, Step, VarSum;
    forall l: Lit | WeightOf(w0.f.poids, l) > 0 && True(m, l) ensures True(e, l) {
      SoftFacts(w0, l);
      LeastExtension(m, e, l, w0.s.defs, w0.s.inputs);
    }
    SumMonotone(w0.f, m, e, w0.s.nVars);
  }

  lemma RunRegular(w: World)
    requires Base(w)
    ensures Regular(w.f, w.s.nVars)
  {
    BaseWf(w);
    hide Ok, ForcedBelow, IndexOk, Survive, Lift, Forces, OverInputs, LitAtMost;
    forall v | v in w.f.a2c && Live(w.f, v)
      ensures 1 <= v <= w.s.nVars && w.f.a2c[v].w0 > 0 && Consistent(w.f.leaves[w.f.a2c[v].card])
    {
      var c := w.f.a2c[v].card;
      assert CounterOk(w.s, w.f, v);
      assert CardOk(w.s, w.cards[c], c, w.asked[c], w.f.leaves[c]);
    }
    forall i | 0 <= i < |w.f.pending| ensures w.f.pending[i].w > 0 && Consistent(w.f.pending[i].lits) {
      assert PendingOk(w.s, w.f.pending[i]);
    }
  }

  /**
   In every state of a run: the saved weights price every assignment as the state does if and
   only if every live counter is at its last output and every pending core is a single literal.
   */
  lemma SavedWeightsExact(w: World)
    requires Base(w)
    ensures WfCards(w.f)
    ensures (forall s: Assignment :: Owed(w.f, Some(s), w.s.nVars) == 0) <==> Exhausted(w.f)
  {
    hide Base;
    RunRegular(w);
    OwedExact(w.f, w.s.nVars);
  }
}
