/**
 The SAT solver as the MaxSAT engine sees it: a growing clause set with
 decision procedures. Its search is replaced by an exhaustive choice over the
 variables that occur, and every freedom of the search (which model, which
 core, when to give up) by nondeterminism.
 */
module Solver {
  import opened Cnf
  import opened Definitions

  datatype Answer =
    | Model(model: Assignment)
    | Core(core: set<Lit>)
    | Unknown

  predicate NoModelWithin(f: set<Clause>, vars: set<nat>, ls: set<Lit>) {
    forall m: Assignment | m <= vars :: !(Sat(m, f) && AllTrue(m, ls))
  }

  function LitVars(ls: set<Lit>): (r: set<nat>) {
    set l | l in ls :: l.v
  }

  /** Only the variables that occur matter. */
  lemma RestrictModel(m: Assignment, f: set<Clause>, ls: set<Lit>, vars: set<nat>)
    requires Vars(f) <= vars && LitVars(ls) <= vars
    requires Sat(m, f) && AllTrue(m, ls)
    ensures Sat(m * vars, f) && AllTrue(m * vars, ls)
  {
    forall c | c in f ensures SatClause(m * vars, c) {
      assert SatClause(m, c);
      forall l | l in c ensures l.v in vars {
        assert l.v in Vars(f);
      }
    }
    forall l | l in ls ensures True(m * vars, l) {
      assert l.v in LitVars(ls);
    }
  }

  lemma ExhaustiveUnsat(f: set<Clause>, ls: set<Lit>, vars: set<nat>)
    requires Vars(f) <= vars && LitVars(ls) <= vars
    requires NoModelWithin(f, vars, ls)
    ensures Unsat(f, ls)
  {
    forall m: Assignment | Sat(m, f) && AllTrue(m, ls) ensures false {
      assert m * vars <= vars;
      RestrictModel(m, f, ls, vars);
    }
  }

  class SatSolver {
    var nVars: nat
    var clauses: set<Clause>
    // The variables of the input formula, and what each other variable stands for.
    ghost var inputs: set<nat>
    ghost var defs: Defs
    // How often a call or the clock gave up.
    ghost var giveUps: nat

    ghost predicate Valid()
      reads this
    {
      && WfDefs(defs, inputs)
      && (forall v | v in defs :: 1 <= v <= nVars)
      && (forall v | v in inputs :: 1 <= v <= nVars)
    }

    constructor ()
      ensures Valid() && nVars == 0 && clauses == {} && defs == map[] && inputs == {}
    {
      nVars, clauses, inputs, defs, giveUps := 0, {}, {}, map[], 0;
    }

    method NewVar() returns (v: nat)
      modifies this`nVars
      ensures v == nVars == old(nVars) + 1
    {
      nVars := nVars + 1;
      v := nVars;
    }

    method AddClause(c: Clause)
      modifies this`clauses
      ensures clauses == old(clauses) + {c}
    {
      clauses := clauses + {c};
    }

    /** A complete call: a model of clauses and assumptions, or a core of the assumptions. */
    method Solve(assumptions: set<Lit>) returns (r: Answer)
      ensures r.Model? ==> Sat(r.model, clauses) && AllTrue(r.model, assumptions)
      ensures r.Core? ==> r.core <= assumptions && Unsat(clauses, r.core)
      ensures !r.Unknown?
    {
      var vars := Vars(clauses) + LitVars(assumptions);
      if m: Assignment :| m <= vars && Sat(m, clauses) && AllTrue(m, assumptions) {
        return Model(m);
      }
      var core: set<Lit> :| core <= assumptions && NoModelWithin(clauses, vars, core);
      assert LitVars(core) <= LitVars(assumptions);
      ExhaustiveUnsat(clauses, core, vars);
      return Core(core);
    }

    /** A call under a conflict or time limit may also give up. */
    method SolveLimited(assumptions: set<Lit>) returns (r: Answer)
      modifies this`giveUps
      ensures r.Model? ==> Sat(r.model, clauses) && AllTrue(r.model, assumptions)
      ensures r.Core? ==> r.core <= assumptions && Unsat(clauses, r.core)
      ensures giveUps == old(giveUps) + if r.Unknown? then 1 else 0
    {
      if * {
        r := Unknown;
        giveUps := giveUps + 1;
      } else {
        r := Solve(assumptions);
      }
    }

    /** A look at the clock. */
    method TimeUp() returns (b: bool)
      modifies this`giveUps
      ensures giveUps == old(giveUps) + if b then 1 else 0
    {
      b := *;
      if b {
        giveUps := giveUps + 1;
      }
    }

    /** Unit propagation of one literal: a conflict, or some implied literals that were not assigned before. */
    method Propagate(lit: Lit) returns (r: Option<set<Lit>>)
      ensures r.None? ==> Unsat(clauses, {lit})
      ensures r.Some? ==> forall q | q in r.value :: Unsat(clauses, {lit, Neg(q)}) && q.v != lit.v && [q] !in clauses
    {
      var vars := Vars(clauses) + {lit.v};
      var conflict: bool := *;
      if conflict && NoModelWithin(clauses, vars, {lit}) {
        ExhaustiveUnsat(clauses, {lit}, vars);
        return None;
      }
      var candidates := set v, b | v in vars && b in {true, false} :: Lit(v, b);
      var implied := set q | q in candidates && q.v != lit.v && [q] !in clauses && NoModelWithin(clauses, vars, {lit, Neg(q)});
      var found: set<Lit> :| found <= implied;
      forall q | q in found ensures Unsat(clauses, {lit, Neg(q)}) {
        ExhaustiveUnsat(clauses, {lit, Neg(q)}, vars);
      }
      return Some(found);
    }
  }
}
