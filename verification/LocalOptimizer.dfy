/**
 `LocalOptimizer2`: improve a model against the weights of an earlier state and
 compute its cost under them.
 */
module LocalOptimizer {
  import opened Cnf
  import opened Solver
  import opened Objective

  /** The weights the optimizer was created with, in a state that owes nothing beyond them. */
  ghost predicate Snapshot(f: Formula, poids: map<nat, int>, initialWeight: nat) {
    WfCards(f) && f.poids == poids && f.cost == initialWeight && Exhausted(f)
  }

  /** `calculateCostAssign`: the value in the state the weights were taken from, save for what that state owes. */
  method CalculateCost(poids: map<nat, int>, initialWeight: nat, n: nat, solution: Assignment, ghost f: Formula)
      returns (cost: nat)
    requires WfCards(f) && f.poids == poids && f.cost == initialWeight
    ensures cost + Owed(f, Some(solution), n) == Value(f, Some(solution), n)
  {
    cost := 0;
    for v := 1 to n + 1
      invariant cost + Tails(f, Some(solution), v - 1) == VarSum(f, Some(solution), v - 1)
    {
      var w := WeightOf(poids, Lit(v, true));
      assert SoftLit(f, v) == Lit(v, w > 0);
      if w > 0 {
        if v !in solution {
          cost := cost + w;
        }
      } else if w < 0 {
        if v in solution {
          cost := cost + -w;
        }
      }
    }
    cost := cost + initialWeight;
  }

  /** The soft literals of the first n variables that are true are all in `satisfied`. */
  ghost predicate Keeps(poids: map<nat, int>, solution: Assignment, n: nat, satisfied: set<Lit>) {
    forall l: Lit | 1 <= l.v <= n && WeightOf(poids, l) > 0 && True(solution, l) :: l in satisfied
  }

  /** These are soft literals of the first n variables. */
  ghost predicate SoftOnly(poids: map<nat, int>, n: nat, satisfied: set<Lit>) {
    forall l | l in satisfied :: 1 <= l.v <= n && WeightOf(poids, l) > 0
  }

  /** The soft literals of the first n variables that are false are all in the list. */
  ghost predicate Lists(poids: map<nat, int>, solution: Assignment, n: nat, falsified: seq<Lit>) {
    && (forall l: Lit | 1 <= l.v <= n && WeightOf(poids, l) > 0 && !True(solution, l) :: l in falsified)
    && forall l | l in falsified :: 1 <= l.v <= n && WeightOf(poids, l) > 0
  }

  function Satisfied(poids: map<nat, int>, n: nat, m: Assignment): (r: set<Lit>) {
    set v, b | 1 <= v <= n && b in {true, false} && WeightOf(poids, Lit(v, b)) > 0 && True(m, Lit(v, b)) :: Lit(v, b)
  }

  /** No model satisfies one more soft literal besides those that m satisfies. */
  ghost predicate Saturated(clauses: set<Clause>, poids: map<nat, int>, n: nat, m: Assignment) {
    forall l: Lit | 1 <= l.v <= n && WeightOf(poids, l) > 0 && !True(m, l) :: Unsat(clauses, Satisfied(poids, n, m) + {l})
  }

  lemma SubsetUnsat(clauses: set<Clause>, a: set<Lit>, b: set<Lit>)
    requires Unsat(clauses, a) && a <= b
    ensures Unsat(clauses, b)
  {
  }

  lemma MoreRefused(clauses: set<Clause>, a: set<Lit>, l: Lit)
    ensures forall x | Unsat(clauses, a + {x}) :: Unsat(clauses, a + {l} + {x})
  {
    forall x | Unsat(clauses, a + {x}) ensures Unsat(clauses, a + {l} + {x}) {
      SubsetUnsat(clauses, a + {x}, a + {l} + {x});
    }
  }

  lemma KeepsMore(poids: map<nat, int>, solution: Assignment, n: nat, satisfied: set<Lit>, falsified: seq<Lit>, k: nat)
    requires Keeps(poids, solution, n, satisfied) && SoftOnly(poids, n, satisfied) && Lists(poids, solution, n, falsified) && k < |falsified|
    ensures Keeps(poids, solution, n, satisfied + {falsified[k]}) && SoftOnly(poids, n, satisfied + {falsified[k]})
  {
    assert falsified[k] in falsified;
  }

  lemma BestKeeps(poids: map<nat, int>, solution: Assignment, best: Assignment, n: nat, satisfied: set<Lit>)
    requires Keeps(poids, solution, n, satisfied) && AllTrue(best, satisfied)
    ensures forall l: Lit | 1 <= l.v <= n && WeightOf(poids, l) > 0 && True(solution, l) :: True(best, l)
  {
  }

  lemma NothingMore(clauses: set<Clause>, poids: map<nat, int>, n: nat, solution: Assignment, best: Assignment, satisfied: set<Lit>, falsified: seq<Lit>)
    requires AllTrue(best, satisfied) && SoftOnly(poids, n, satisfied) && Lists(poids, solution, n, falsified)
    requires Keeps(poids, solution, n, satisfied)
    requires forall k | 0 <= k < |falsified| :: falsified[k] in satisfied || Unsat(clauses, satisfied + {falsified[k]})
    ensures Saturated(clauses, poids, n, best)
  {
    hide Unsat;
    forall l: Lit | 1 <= l.v <= n && WeightOf(poids, l) > 0 && !True(best, l) ensures Unsat(clauses, Satisfied(poids, n, best) + {l}) {
      assert l !in satisfied && l in falsified;
      var k :| 0 <= k < |falsified| && falsified[k] == l;
      forall x | x in satisfied ensures x in Satisfied(poids, n, best) {
        assert x == Lit(x.v, x.pos);
      }
      SubsetUnsat(clauses, satisfied + {l}, Satisfied(poids, n, best) + {l});
    }
  }

  /** The soft literals that are true and those that are false. */
  method SplitSoft(poids: map<nat, int>, n: nat, solution: Assignment) returns (satisfied: set<Lit>, falsified: seq<Lit>)
    ensures AllTrue(solution, satisfied) && Keeps(poids, solution, n, satisfied) && SoftOnly(poids, n, satisfied)
    ensures Lists(poids, solution, n, falsified)
  {
    falsified, satisfied := [], {};
    for v := 1 to n + 1
      invariant AllTrue(solution, satisfied) && Keeps(poids, solution, v - 1, satisfied)
      invariant SoftOnly(poids, n, satisfied) && Lists(poids, solution, v - 1, falsified)
    {
      var w := WeightOf(poids, Lit(v, true));
      if w != 0 {
        var l := Lit(v, w > 0);
        if True(solution, l) {
          satisfied := satisfied + {l};
        } else {
          falsified := falsified + [l];
        }
      }
    }
  }

  /**
   `optimize`: keep the satisfied soft literals, try to satisfy the falsified ones one by
   one, and return a model that costs no more, with its cost. Unless an answer was unknown, no
   other soft literal can be satisfied on top of those that are.
   */
  method Optimize(solver: SatSolver, poids: map<nat, int>, initialWeight: nat, n: nat, solution: Assignment,
                  ghost f: Formula) returns (best: Assignment, cost: nat)
    requires Sat(solution, solver.clauses) && Snapshot(f, poids, initialWeight)
    modifies solver`giveUps
    ensures solver.giveUps == old(solver.giveUps) ==> Saturated(solver.clauses, poids, n, best)
    ensures Sat(best, solver.clauses) && WfCards(f) && cost == Value(f, Some(best), n)
    ensures cost <= Value(f, Some(solution), n)
  {
    hide Saturated, Keeps, SoftOnly, Lists, Unsat, WeightOf;
    var satisfied, falsified := SplitSoft(poids, n, solution);
    var modified := false;
    ghost var satisfied0 := satisfied;
    ghost var known := solution;
    var id := |falsified|;
    while id > 0
      invariant 0 <= id <= |falsified|
      invariant Sat(known, solver.clauses) && AllTrue(known, satisfied) && Keeps(poids, solution, n, satisfied) && SoftOnly(poids, n, satisfied)
      invariant solver.giveUps >= old(solver.giveUps) && (modified || satisfied == satisfied0)
      invariant solver.giveUps == old(solver.giveUps) ==>
                  forall k | id <= k < |falsified| :: falsified[k] in satisfied || Unsat(solver.clauses, satisfied + {falsified[k]})
    {
      id := id - 1;
      var answer := solver.SolveLimited(satisfied + {falsified[id]});
      if answer.Model? {
        MoreRefused(solver.clauses, satisfied, falsified[id]);
        KeepsMore(poids, solution, n, satisfied, falsified, id);
        satisfied := satisfied + {falsified[id]};
        known := answer.model;
        modified := true;
      } else if answer.Core? {
        SubsetUnsat(solver.clauses, answer.core, satisfied + {falsified[id]});
      }
    }
    best := solution;
    if modified {
      var answer := solver.Solve(satisfied);
      assert answer.Core? ==> AllTrue(known, answer.core);
      best := answer.model;
      BestKeeps(poids, solution, best, n, satisfied);
      SumMonotone(f, solution, best, n);
      ShortOwesNothing(f.pending, Some(solution));
    }
    if solver.giveUps == old(solver.giveUps) {
      NothingMore(solver.clauses, poids, n, solution, best, satisfied, falsified);
    }
    cost := CalculateCost(poids, initialWeight, n, best, f);
    SpentOwesNothing(f, Some(best), n);
    ShortOwesNothing(f.pending, Some(best));
  }
}
