/**
 Several calls of `solve` on one object: which sessions are answered right, and
 states in which the next call would not be.
 */
module Incremental {
  import opened Cnf
  import opened Definitions
  import opened Solver
  import opened Totalizer
  import opened Objective
  import opened Engine
  import opened Steps
  import opened Optimality
  import opened LocalOptimizer
  import opened Input
  import opened MaxSat

  // ----- an incremental session -----

  datatype Batch = Batch(hard: seq<Clause>, soft: seq<SoftClause>)

  datatype Reply = Reply(r: bool, solution: Assignment, cost: nat)

  ghost predicate InRange(b: Batch, n: nat) {
    (forall c | c in b.hard :: Within(c, n)) && forall i | 0 <= i < |b.soft| :: Within(b.soft[i].clause, n)
  }

  /** Everything entered with these batches. */
  ghost function Total(batches: seq<Batch>): (p: Problem) {
    if batches == [] then Problem({}, [])
    else
      var last := |batches| - 1;
      var p := Total(batches[..last]);
      Problem(p.hard + ToSet(batches[last].hard), p.soft + batches[last].soft)
  }

  ghost predicate Right(p: Problem, a: Reply) {
    if a.r then Optimal(p, a.solution, a.cost) else Infeasible(p)
  }

  /**
   One more batch of clauses, and another answer. The upper bound strategy is turned off as soon as
   the run leaves a counter that is not exhausted.
   */
  method SolveMore(m: EvalMaxSat, n: nat, ghost p: Problem, b: Batch) returns (a: Reply)
    requires m.Entered(n, p.hard, Weighted(p.soft)) && m.isIncremental && InRange(b, n)
    modifies m`ubStrategy, m`poids, m`a2c, m`index, m`cards, m`asked, m`cost, m`cardToAdd, m`litToRelax, m`solution, m`solutionCost,
             m`cutoff, m`problem, m.store, m.store.solver
    ensures var p' := Problem(p.hard + ToSet(b.hard), p.soft + b.soft);
            m.Entered(n, p'.hard, Weighted(p'.soft)) && Right(p', a)
  {
    hide Inv, Weighted, VarsDistinct, Exhausted;
    m.EnterHard(n, p.hard, Weighted(p.soft), b.hard);
    m.EnterSoft(n, p.hard + ToSet(b.hard), Weighted(p.soft), b.soft);
    WeightedConcat(p.soft, b.soft);
    var r := m.Solve();
    a := Reply(r, m.solution, if m.solutionCost.Some? then m.solutionCost.value else 0);
    WeightedOptimal(p.hard + ToSet(b.hard), p.soft + b.soft, a.solution, a.cost);
    if m.ubStrategy && !Exhausted(m.F()) {
      m.ubStrategy := false;
    }
  }

  /** Variables 1..n and no clauses yet. */
  method Blank(n: nat) returns (e: EvalMaxSat)
    ensures fresh(e) && fresh(e.store) && fresh(e.store.solver)
    ensures Inv(e.W()) && e.problem == Problem({}, []) && e.store.solver.inputs == Numbers(n)
    ensures e.F() == Formula(map[], map[], {}, [], [], 0) && e.litToRelax == [] && Exhausted(e.F())
    ensures e.cutoff.None? && e.solutionCost.None? && !e.isIncremental && e.ubStrategy
  {
    hide Inv, Exhausted;
    e := new EvalMaxSat();
    e.EnterVars(n);
  }

  /**
   Incremental mode, with the upper bound strategy as long as the counters of earlier calls are
   exhausted: each of any number of calls of `solve` is right about everything entered so far.
   */
  method SolveSession(n: nat, batches: seq<Batch>, upperBounds: bool) returns (replies: seq<Reply>)
    requires forall k | 0 <= k < |batches| :: InRange(batches[k], n)
    ensures |replies| == |batches| && forall k | 0 <= k < |batches| :: Right(Total(batches[..k + 1]), replies[k])
  {
    hide Inv, InRange, Right, Exhausted, Total, Weighted;
    var m := Blank(n);
    m.isIncremental, m.ubStrategy := true, upperBounds;
    replies := [];
    ghost var p := Problem({}, []);
    TotalNone(batches);
    for k := 0 to |batches|
      invariant m.Entered(n, p.hard, Weighted(p.soft)) && m.isIncremental && p == Total(batches[..k])
      invariant fresh(m) && fresh(m.store) && fresh(m.store.solver)
      invariant |replies| == k && forall j | 0 <= j < k :: Right(Total(batches[..j + 1]), replies[j])
    {
      TotalNext(batches, k);
      var a := SolveMore(m, n, p, batches[k]);
      p := Total(batches[..k + 1]);
      replies := replies + [a];
    }
  }

  lemma TotalNone(batches: seq<Batch>)
    ensures Total(batches[..0]) == Problem({}, []) && Weighted([]) == []
  {
  }

  lemma TotalNext(batches: seq<Batch>, k: nat)
    requires k < |batches|
    ensures var p := Total(batches[..k]);
            Total(batches[..k + 1]) == Problem(p.hard + ToSet(batches[k].hard), p.soft + batches[k].soft)
  {
    assert batches[..k + 1][..k] == batches[..k];
  }

  // ----- an upper bound below the optimum -----

  /** The literals 1..n. */
  function First(n: nat): (r: seq<Lit>)
    ensures |r| == n && forall i | 0 <= i < n :: r[i] == Lit(i + 1, true)
  {
    seq(n, (i: nat) => Lit(i + 1, true))
  }

  /** A soft clause of weight 1 for each of them. */
  function Units(n: nat): (r: seq<SoftClause>)
    ensures |r| == n && forall i | 0 <= i < n :: r[i] == SoftClause([Lit(i + 1, true)], 1)
  {
    seq(n, (i: nat) => SoftClause([Lit(i + 1, true)], 1))
  }

  /** Exactly the literals 1..n are soft, each with weight 1. */
  ghost predicate Ones(poids: map<nat, int>, n: nat) {
    forall k: Lit :: WeightOf(poids, k) == if 1 <= k.v <= n then (if k.pos then 1 else -1) else 0
  }

  lemma OnesStart()
    ensures Ones(map[], 0)
  {
  }

  lemma OnesNext(poids: map<nat, int>, n: nat)
    requires Ones(poids, n)
    ensures WeightOf(poids, Lit(n + 1, true)) == 0 && Ones(SetWeight(poids, Lit(n + 1, true), 1), n + 1)
  {
  }

  lemma UnitsNext(n: nat)
    ensures Units(n + 1) == Units(n) + [SoftClause([Lit(n + 1, true)], 1)]
  {
  }

  /** n soft literals, not all of which can be true. */
  method EnterUnits(n: nat) returns (e: EvalMaxSat)
    requires n > 1
    ensures fresh(e) && fresh(e.store) && fresh(e.store.solver)
    ensures Inv(e.W()) && e.cutoff.None? && e.isIncremental && e.ubStrategy && e.litToRelax == [] && e.store.solver.inputs == Numbers(n)
    ensures e.problem == Problem({Negated(First(n))}, Units(n))
    ensures Ones(e.poids, n) && e.cost == 0 && e.a2c == map[] && e.cardToAdd == []
  {
    hide Inv, Ones, WeightOf, SetWeight, Exhausted, VarsOf, LeavesOf;
    e := Blank(n);
    e.isIncremental := true;
    e.AddHardClause(Negated(First(n)));
    assert {} + {Negated(First(n))} == {Negated(First(n))};
    OnesStart();
    for v := 0 to n
      invariant Inv(e.W()) && e.cutoff.None? && e.store.solver.inputs == Numbers(n)
      invariant e.problem == Problem({Negated(First(n))}, Units(v))
      invariant Ones(e.poids, v) && e.cost == 0 && e.a2c == map[] && e.cardToAdd == []
      invariant e.isIncremental && e.ubStrategy && e.litToRelax == []
    {
      OnesNext(e.poids, v);
      UnitsNext(v);
      e.AddWeight(Lit(v + 1, true), 1);
    }
  }

  lemma FirstCore(clauses: set<Clause>, poids: map<nat, int>, n: nat)
    requires Negated(First(n)) in clauses && Ones(poids, n)
    ensures Distinct(First(n)) && Unsat(clauses, ToSet(First(n))) && forall l | l in First(n) :: WeightOf(poids, l) == 1
  {
    forall m: Assignment | Sat(m, clauses) ensures !AllTrue(m, ToSet(First(n))) {
      var c := Negated(First(n));
      assert SatClause(m, c);
      var l :| l in c && True(m, l);
      var i :| 0 <= i < n && c[i] == l;
      assert First(n)[i] in First(n) && l == Neg(First(n)[i]);
      assert !True(m, First(n)[i]);
    }
  }

  /** Only variable u has weight, 1 for its negation. */
  ghost predicate OnlyOutput(poids: map<nat, int>, u: nat) {
    WeightOf(poids, Lit(u, false)) == 1 && forall k: Lit | k.v != u :: WeightOf(poids, k) == 0
  }

  lemma LoweredZero(poids: map<nat, int>, poids1: map<nat, int>, n: nat, k: Lit)
    requires Ones(poids, n) && CoreLowered(poids, poids1, First(n), 1)
    ensures WeightOf(poids1, k) == 0
  {
    if 1 <= k.v <= n {
      var p := First(n)[k.v - 1];
      assert p in First(n);
      assert WeightOf(poids1, p) == WeightOf(poids, p) - 1;
      assert WeightOf(poids, p) == 1;
      assert k == p || k == Neg(p);
    } else {
      assert Foreign(First(n), k.v);
    }
  }

  lemma OutputOnly(poids: map<nat, int>, poids1: map<nat, int>, n: nat, l: Lit)
    requires Ones(poids, n) && CoreLowered(poids, poids1, First(n), 1) && !l.pos
    ensures OnlyOutput(SetWeight(poids1, l, 1), l.v)
  {
    hide Ones, CoreLowered, WeightOf;
    forall k: Lit ensures WeightOf(poids1, k) == 0 {
      LoweredZero(poids, poids1, n, k);
    }
    assert l == Lit(l.v, false);
  }

  lemma NotExhausted(f: Formula, u: nat)
    requires OnlyOutput(f.poids, u) && HasNext(f, u)
    ensures !Exhausted(f)
  {
    assert Lit(u, true) == Neg(Lit(u, false));
    assert !Spent(f, u);
  }

  /** The core of all of them is relaxed and gets its counter. */
  method RelaxUnits(e: EvalMaxSat, n: nat) returns (ghost u: nat)
    requires n > 2 && Inv(e.W()) && e.litToRelax == [] && e.cardToAdd == [] && Negated(First(n)) in e.problem.hard
    requires Ones(e.poids, n) && e.cost == 0 && e.store.solver.inputs == Numbers(n)
    modifies e`poids, e`a2c, e`index, e`cards, e`asked, e`cost, e`cardToAdd, e`litToRelax, e.store, e.store.solver
    ensures Inv(e.W()) && e.store.solver.inputs == old(e.store.solver.inputs)
    ensures OnlyOutput(e.poids, u) && u > n && e.cost == 1 && e.cardToAdd == [] && VarsDistinct(e.litToRelax) && !Exhausted(e.F())
  {
    hide Base, Identity, Step, AssumOk, Ones, CoreLowered, OnlyOutput, Unsat, SetWeight, WeightOf, Leaves, FreshWeight;
    ghost var w := e.W();
    InputFacts(w, Lit(n, true));
    var core := First(n);
    FirstCore(e.store.solver.clauses, e.poids, n);
    var assum := e.InitAssum(1);
    ghost var d;
    assum, d := e.HandleCore(core, 1, assum);
    ghost var w1 := e.W();
    StepFacts(w, w1);
    StepKeepsInv(w, w1);
    var newLit := e.BuildCounter();
    StepFacts(w1, e.W());
    StepKeepsInv(w1, e.W());
    u := newLit.value.v;
    FreshFacts(w1, e.poids, newLit.value);
    OutputOnly(w.f.poids, w1.f.poids, n, newLit.value);
    assert |multiset(Leaves(e.cards[|w1.cards|]))| == |multiset(Negated(core))|;
    NotExhausted(e.F(), u);
  }

  function FalseUnits(n: nat): (r: set<Clause>) {
    set v | 1 <= v <= n :: [Lit(v, false)]
  }

  /** The user makes all of them false; none has weight any more, so only clauses are added. */
  method FalsifyUnits(e: EvalMaxSat, n: nat, ghost u: nat)
    requires Inv(e.W()) && e.store.solver.inputs == Numbers(n) && OnlyOutput(e.poids, u) && u > n
    modifies e`poids, e`a2c, e`index, e`cards, e`asked, e`cost, e`problem, e.store, e.store.solver
    ensures Inv(e.W()) && e.F() == old(e.F()) && e.problem == old(e.problem).(hard := old(e.problem).hard + FalseUnits(n))
  {
    hide Inv;
    assert e.problem.hard + FalseUnits(0) == e.problem.hard;
    for v := 0 to n
      invariant Inv(e.W()) && e.store.solver.inputs == Numbers(n) && e.F() == old(e.F())
      invariant e.problem == old(e.problem).(hard := old(e.problem).hard + FalseUnits(v))
    {
      assert WeightOf(e.poids, Lit(v + 1, false)) == 0;
      e.AddHardClause([Lit(v + 1, false)]);
      assert old(e.problem).hard + FalseUnits(v + 1) == old(e.problem).hard + FalseUnits(v) + {[Lit(v + 1, false)]};
    }
  }

  lemma {:induction false} UnitsCost(n: nat, x: Assignment)
    requires forall v | 1 <= v <= n :: v !in x
    ensures CostOf(Units(n), x) == n
  {
    if n > 0 {
      UnitsCost(n - 1, x);
      UnitsNext(n - 1);
      var last := SoftClause([Lit(n, true)], 1);
      assert [last][1..] == [] && !SatClause(x, last.clause) && CostOf([last], x) == 1;
      CostConcat(Units(n - 1), [last], x);
    }
  }

  /** Every solution falsifies all soft clauses. */
  lemma OnlyCost(n: nat, x: Assignment)
    requires n > 0
    ensures var hard := {Negated(First(n))} + FalseUnits(n);
            && (Sat(x, hard) ==> CostOf(Units(n), x) == n)
            && Sat({}, hard)
  {
    var hard := {Negated(First(n))} + FalseUnits(n);
    if Sat(x, hard) {
      forall v | 1 <= v <= n ensures v !in x {
        assert [Lit(v, false)] in hard;
        assert SatClause(x, [Lit(v, false)]);
      }
      UnitsCost(n, x);
    }
    forall c | c in hard ensures SatClause({}, c) {
      assert c[0] in c && True({}, c[0]);
    }
  }

  /** Where only variable u has weight, the weights add up to 1 at most. */
  lemma {:induction false} OutputSum(f: Formula, view: View, n: nat, u: nat)
    requires WfCards(f) && OnlyOutput(f.poids, u)
    ensures VarSum(f, view, n) <= Tails(f, view, n) + if u <= n then 1 else 0
  {
    if n > 0 {
      OutputSum(f, view, n - 1, u);
      if n != u {
        assert SoftTerm(f, view, n) == 0;
      } else {
        assert Lit(u, true) == Neg(Lit(u, false)) && SoftLit(f, u) == Lit(u, false);
      }
    }
  }

  lemma ZeroSolution(w: World, n: nat)
    requires n > 0 && Inv(w) && w.cut.None? && w.p == Problem({Negated(First(n))} + FalseUnits(n), Units(n))
    ensures !Unsat(w.s.clauses, {})
  {
    OnlyCost(n, {});
    var e := Canonical(w, {});
    assert Sat(e, w.s.clauses) && AllTrue(e, {});
  }

  /**
   The guard of `Startable` is needed: after an incremental run that left a counter with outputs to
   come, the saved weights price a model at 2 although every solution costs n.
   */
  method UpperBoundTooLow(n: nat) returns (e: EvalMaxSat, m: Assignment, computed: nat)
    requires n > 2
    ensures fresh(e) && Inv(e.W()) && e.cutoff.None? && e.isIncremental && e.ubStrategy && VarsDistinct(e.litToRelax) && !Exhausted(e.F())
    ensures Sat(m, e.store.solver.clauses) && Optimal(e.problem, m, n)
    ensures WfCards(e.F()) && computed + Owed(e.F(), Some(m), e.store.solver.nVars) == Value(e.F(), Some(m), e.store.solver.nVars)
    ensures computed <= 2 < CostOf(e.problem.soft, m)
  {
    hide Base, Identity, Ones, OnlyOutput, Exhausted, Unsat, Owed, Value, VarSum;
    e := EnterUnits(n);
    ghost var u := RelaxUnits(e, n);
    FalsifyUnits(e, n, u);
    ghost var w := e.W();
    ZeroSolution(w, n);
    BaseWf(w);
    var answer := e.store.solver.Solve({});
    if answer.Core? {
      CoreEmpty(e.store.solver.clauses, answer.core);
    }
    m := answer.model;
    forall x: Assignment ensures Sat(x, e.problem.hard) ==> CostOf(e.problem.soft, x) == n {
      OnlyCost(n, x);
    }
    computed := CalculateCost(e.poids, e.cost, e.store.solver.nVars, m, e.F());
    OutputPrice(e.F(), m, e.store.solver.nVars, u, computed);
  }

  lemma OutputPrice(f: Formula, m: Assignment, n: nat, u: nat, computed: nat)
    requires WfCards(f) && OnlyOutput(f.poids, u) && f.cost == 1
    requires computed + Owed(f, Some(m), n) == Value(f, Some(m), n)
    ensures computed <= 2
  {
    OutputSum(f, Some(m), n, u);
  }

  // ----- hardening is for one run -----

  lemma {:induction false} NothingLeft(f: Formula, view: View, n: nat)
    requires WfCards(f) && f.relaxing == {} && forall l: Lit :: WeightOf(f.poids, l) == 0
    ensures VarSum(f, view, n) == 0
  {
    if n > 0 {
      NothingLeft(f, view, n - 1);
    }
  }

  function Pair(): (r: SoftClause) {
    SoftClause([Lit(1, true)], 2)
  }

  lemma OneCost(x: Assignment)
    ensures CostOf([Pair()], x) == if 1 in x then 0 else 2
  {
    assert [Pair()][1..] == [];
    assert Lit(1, true) in Pair().clause && forall l | l in Pair().clause :: l == Lit(1, true);
  }

  /** Nothing is soft any more, and nothing was paid. */
  ghost predicate Settled(w: World) {
    w.f.relaxing == {} && w.f.pending == [] && w.f.cost == 0 && forall l: Lit :: WeightOf(w.f.poids, l) == 0
  }

  lemma SettledCost(w: World, e: Assignment)
    requires Inv(w) && Settled(w) && Respects(e, w.s.defs) && Sat(e, w.s.clauses)
    ensures CostOf(w.p.soft, e) == 0
  {
    NothingLeft(w.f, Some(e), w.s.nVars);
  }

  /** That takes hardening. */
  lemma SettledCut(w: World)
    requires Inv(w) && Settled(w) && w.p == Problem({}, [Pair()])
    ensures w.cut.Some?
  {
    if w.cut.None? {
      var e := Canonical(w, {});
      OneCost({});
      SettledCost(w, e);
    }
  }

  /** Once the literal was hardened, a clause against it leaves no model. */
  lemma SettledUnsat(w: World)
    requires Inv(w) && Settled(w) && w.p == Problem({[Lit(1, false)]}, [Pair()])
    ensures Unsat(w.s.clauses, {}) && Optimal(w.p, {}, 2)
  {
    forall x: Assignment ensures Sat(x, w.p.hard) <==> 1 !in x {
      assert [Lit(1, false)][0] in [Lit(1, false)];
    }
    forall x: Assignment ensures Sat(x, w.p.hard) ==> CostOf(w.p.soft, x) == 2 {
      OneCost(x);
    }
    forall m: Assignment ensures !Sat(m, w.s.clauses) {
      if Sat(m, w.s.clauses) {
        BaseForces(w, m);
        SettledCost(w, Canonical(w, m));
      }
    }
  }

  lemma NoWeight(poids: map<nat, int>)
    requires forall l: Lit :: WeightOf(poids, l) <= 0
    ensures forall l: Lit :: WeightOf(poids, l) == 0
  {
    forall l: Lit ensures WeightOf(poids, l) == 0 {
      NegWeight(poids, l);
      assert WeightOf(poids, Neg(l)) <= 0;
    }
  }

  /** A soft literal of weight 2 and a solution that satisfies it. */
  method EnterOne() returns (e: EvalMaxSat)
    ensures fresh(e) && fresh(e.store) && fresh(e.store.solver)
    ensures Inv(e.W()) && e.problem == Problem({}, [Pair()]) && e.store.solver.inputs == Numbers(1) && Exhausted(e.F())
    ensures e.poids == SetWeight(map[], Lit(1, true), 2) && e.cost == 0 && e.cardToAdd == [] && e.litToRelax == []
    ensures e.cutoff.None? && e.solutionCost == Some(0) && e.solution == {1} && !e.isIncremental
  {
    hide Inv, Exhausted, WeightOf;
    e := Blank(1);
    NoWeights(Lit(1, true));
    e.AddWeight(Lit(1, true), 2);
    e.solution, e.solutionCost := {1}, Some(0);
  }

  /** The literal is hardened against that solution. */
  method HardenOne(e: EvalMaxSat)
    requires Inv(e.W()) && e.problem == Problem({}, [Pair()]) && Exhausted(e.F())
    requires e.poids == SetWeight(map[], Lit(1, true), 2) && e.cost == 0 && e.cardToAdd == [] && e.litToRelax == []
    requires e.cutoff.None? && e.solutionCost == Some(0) && !e.isIncremental
    modifies e`poids, e`a2c, e`index, e`cards, e`asked, e`cost, e`cutoff, e.store, e.store.solver
    ensures Inv(e.W()) && Settled(e.W()) && e.store.solver.inputs == old(e.store.solver.inputs)
    ensures e.cutoff == Some(0) && Exhausted(e.F())
  {
    hide Inv, Step, Tracks, Settled, Exhausted, WeightOf;
    ghost var w := e.W();
    FiledTwo(w);
    var n, _ := e.Harden({});
    StepFacts(w, e.W());
    NoWeight(e.poids);
    SettledNow(e.W());
    SettledCut(e.W());
  }

  lemma NoWeights(l: Lit)
    ensures WeightOf(map[], l) == 0
  {
  }

  lemma FiledTwo(w: World)
    requires Inv(w) && w.f.poids == SetWeight(map[], Lit(1, true), 2)
    ensures w.index.Keys != {1}
  {
    HeaviestFiled(w);
    assert WeightOf(w.f.poids, Lit(1, true)) == 2;
  }

  lemma SettledNow(w: World)
    requires w.f.relaxing == {} && w.f.pending == [] && w.f.cost == 0 && forall l: Lit :: WeightOf(w.f.poids, l) == 0
    ensures Settled(w)
  {
  }

  /**
   The other guard of `Startable` is needed too: outside incremental mode a literal is hardened
   against a solution of cost 0, and with a later hard clause against it the clauses have no model
   although the problem has a solution.
   */
  method HardenedTooFar() returns (e: EvalMaxSat)
    ensures Inv(e.W()) && e.cutoff == Some(0) && !e.isIncremental && Exhausted(e.F())
    ensures Unsat(e.store.solver.clauses, {}) && Optimal(e.problem, {}, 2)
  {
    hide Inv, Unsat, Optimal, Exhausted;
    e := EnterOne();
    HardenOne(e);
    e.AddHardClause([Lit(1, false)]);
    assert {} + {[Lit(1, false)]} == {[Lit(1, false)]};
    SettledUnsat(e.W());
  }
}
