/**
 The steps of the MaxSAT engine and what each does to the objective: making a
 soft literal hard or false, taking weight off a core, contracting an at-most-one
 set, building a counter, and what a result of the solver proves.
 */
module Steps {
  import opened Cnf
  import opened Definitions
  import opened Totalizer
  import opened Objective
  import opened Engine

  // ----- steps of the engine -----

  /**
   What every step keeps: the original problem, the objective of every canonical model that
   is left, and the sum of lower bound and worst case, while the lower bound only grows.
   */
  ghost predicate Step(w: World, w': World) {
    && Base(w) && Base(w') && w'.p == w.p
    && Extends(w.s.defs, w'.s.defs) && w.s.clauses <= w'.s.clauses
    && w'.s.inputs == w.s.inputs && w'.s.nVars >= w.s.nVars
    && (forall e: Assignment | Respects(e, w'.s.defs) && Sat(e, w'.s.clauses) ::
          Value(w'.f, Some(e), w'.s.nVars) == Value(w.f, Some(e), w.s.nVars))
    && Value(w'.f, None, w'.s.nVars) <= Value(w.f, None, w.s.nVars)
    && w'.f.cost >= w.f.cost
  }

  lemma StepTransitive(w: World, w1: World, w2: World)
    requires Step(w, w1) && Step(w1, w2)
    ensures Step(w, w2)
  {
    hide Base;
    forall e: Assignment | Respects(e, w2.s.defs) && Sat(e, w2.s.clauses)
      ensures Respects(e, w1.s.defs) && Sat(e, w1.s.clauses)
    {
      RespectsSubset(e, w1.s.defs, w2.s.defs);
    }
  }

  lemma StepReflexive(w: World)
    requires Base(w)
    ensures Step(w, w)
  {
  }

  /** The invariant of the whole run. */
  lemma StepKeepsInv(w: World, w': World)
    requires Inv(w) && Step(w, w')
    ensures Inv(w')
  {
    assert WfCards(w'.f);
    hide Base;
    forall e: Assignment | Respects(e, w'.s.defs) && Sat(e, w'.s.clauses)
      ensures CostOf(w'.p.soft, e) == Value(w'.f, Some(e), w'.s.nVars)
    {
      RespectsSubset(e, w.s.defs, w'.s.defs);
    }
  }

  /** What the shape of the state says about one soft literal. */
  lemma SoftFacts(w: World, l: Lit)
    requires Base(w) && WeightOf(w.f.poids, l) > 0
    ensures 1 <= l.v <= w.s.nVars && l.v !in w.f.relaxing && Soft(l, w.s.defs, w.s.inputs)
    ensures l.v in w.f.a2c ==> !l.pos && Live(w.f, l.v)
    ensures l.v in w.f.a2c ==> LitAtMost(l, w.f.leaves[w.f.a2c[l.v].card], w.f.a2c[l.v].k, w.s.defs, w.s.clauses)
  {
    assert SoftLit(w.f, l.v) == l;
    if l.v in w.f.a2c {
      assert CounterOk(w.s, w.f, l.v);
    }
  }

  /** A counter whose literal is true owes nothing. */
  lemma TrueOwesNothing(w: World, l: Lit, e: Assignment)
    requires Base(w) && WeightOf(w.f.poids, l) > 0 && l.v in w.f.a2c
    requires Respects(e, w.s.defs) && True(e, l)
    ensures Tail(w.f, Some(e), l.v) == 0
  {
    hide Base, Soft;
    SoftFacts(w, l);
    BaseWf(w);
    var c := w.f.a2c[l.v];
    assert Count(e, w.f.leaves[c.card]) <= c.k;
    assert Excess(CountIn(Some(e), w.f.leaves[c.card]), c.k + 1) == 0;
  }

  /** Making a soft literal hard: it is true wherever the formula still holds, so nothing is lost. */
  lemma HardenStep(w: World, l: Lit)
    requires Base(w) && WeightOf(w.f.poids, l) > 0 && Admissible(w.s, w.p, w.cut, [l])
    ensures var w1 := Reweighed(w, l, 0, false); Step(w, w1.(s := WithClause(w1.s, [l])))
  {
    var w1 := Reweighed(w, l, 0, false);
    var w2 := w1.(s := WithClause(w1.s, [l]));
    SoftFacts(w, l);
    ReweighedBase(w, l, 0, false);
    AddClauseBase(w1, [l]);
    hide Ok, ForcedBelow, Shape, CardsOk, IndexOk, Survive, Lift, Forces, OverInputs, Admissible, Soft, LitAtMost;
    forall e: Assignment | Respects(e, w2.s.defs) && Sat(e, w2.s.clauses)
      ensures Value(w2.f, Some(e), w.s.nVars) == Value(w.f, Some(e), w.s.nVars)
    {
      assert [l] in w2.s.clauses && SatClause(e, [l]);
      HardenValue(w, l, Some(e));
    }
    HardenValue(w, l, None);
  }

  lemma HardenValue(w: World, l: Lit, view: View)
    requires Base(w) && WeightOf(w.f.poids, l) > 0
    requires view.Some? ==> Respects(view.value, w.s.defs) && True(view.value, l)
    ensures WfCards(Reweighed(w, l, 0, false).f)
    ensures Value(Reweighed(w, l, 0, false).f, view, w.s.nVars) <= Value(w.f, view, w.s.nVars)
    ensures view.Some? ==> Value(Reweighed(w, l, 0, false).f, view, w.s.nVars) == Value(w.f, view, w.s.nVars)
  {
    hide Base, Refile, LitAtMost, Soft, Tail, VarSum, PendingSum, SetWeight;
    BaseWf(w);
    SoftFacts(w, l);
    if l.v in w.f.a2c && view.Some? {
      TrueOwesNothing(w, l, view.value);
    }
    var w1 := Reweighed(w, l, 0, false);
    assert w1.f == w.f.(poids := SetWeight(w.f.poids, l, 0));
    LowerWeight(w.f, l, WeightOf(w.f.poids, l), view, w.s.nVars);
  }

  /** The weight of the literal is paid and gone, its successor not yet there. */
  function FalsifyWorld(w: World, l: Lit, x: nat): (w': World)
    requires WeightOf(w.f.poids, Neg(l)) >= 0
  {
    var w0 := Reweighed(w, Neg(l), 0, false);
    w0.(f := w0.f.(cost := w.f.cost + x))
  }

  lemma FalsifyReady(w: World, l: Lit, x: nat)
    requires Base(w) && x == WeightOf(w.f.poids, Neg(l)) > 0
    ensures Base(FalsifyWorld(w, l, x)) && Due(FalsifyWorld(w, l, x), l.v)
  {
    var w0 := Reweighed(w, Neg(l), 0, false);
    SoftFacts(w, Neg(l));
    ReweighedBase(w, Neg(l), 0, false);
    CostBase(w0, FalsifyWorld(w, l, x));
    LiveDue(w, l, w.f.relaxing);
    hide Base;
    assert SetWeight(w.f.poids, l, 0) == SetWeight(w.f.poids, Neg(l), 0);
    var wd := Zeroed(w, l).(f := Zeroed(w, l).f.(relaxing := w.f.relaxing));
    assert w0.f.relaxing == w.f.relaxing;
    forall u ensures Live(FalsifyWorld(w, l, x).f, u) <==> Live(wd.f, u) {
    }
  }

  /** A soft literal that must be false: its weight is paid and its successor, if any, takes over. */
  lemma FalsifyStep(w: World, wz: World, w1: World, l: Lit, x: nat)
    requires Base(w) && x == WeightOf(w.f.poids, Neg(l)) > 0 && Admissible(w.s, w.p, w.cut, [l])
    requires wz == FalsifyWorld(w, l, x)
    requires Relaxed(wz, w1, l.v) && w1.p == w.p && w1.cut == w.cut
    requires w1.f.cost == wz.f.cost && w1.f.pending == wz.f.pending
    ensures Step(w, w1.(s := WithClause(w1.s, [l])))
  {
    hide Base, Ok, ForcedBelow, Value, Due;
    var w2 := w1.(s := WithClause(w1.s, [l]));
    SoftFacts(w, Neg(l));
    AdmissibleStable(wz.s, w1.s, w.p, w.cut, [l]);
    AddClauseBase(w1, [l]);
    BaseWf(w);
    BaseWf(w2);
    FalsifyValue(w, wz, w1, l, x, None);
    forall e: Assignment | Respects(e, w2.s.defs) && Sat(e, w2.s.clauses)
      ensures Value(w2.f, Some(e), w2.s.nVars) == Value(w.f, Some(e), w.s.nVars)
    {
      assert [l] in w2.s.clauses && SatClause(e, [l]);
      assert True(e, l);
      FalsifyValue(w, wz, w1, l, x, Some(e));
    }
  }

  lemma FalsifyValue(w: World, wz: World, w1: World, l: Lit, x: nat, view: View)
    requires Base(w) && x == WeightOf(w.f.poids, Neg(l)) > 0
    requires wz == FalsifyWorld(w, l, x)
    requires Relaxed(wz, w1, l.v) && w1.f.cost == wz.f.cost && w1.f.pending == wz.f.pending
    requires ViewOk(view, w1.s.defs) && Falsified(view, Neg(l))
    ensures Value(w1.f, view, w1.s.nVars) == Value(w.f, view, w.s.nVars)
  {
    hide Base, StoreStep, Refile, LitAtMost, Soft, Tail, VarSum, PendingSum, SetWeight, ViewOk;
    SoftFacts(w, Neg(l));
    BaseWf(w);
    BaseWf(w1);
    if l.v in w.f.a2c {
      TailIgnores(w.f, wz.f, view, l.v);
    }
    var f0 := w.f.(poids := SetWeight(w.f.poids, Neg(l), 0));
    LowerWeight(w.f, Neg(l), x, view, w.s.nVars);
    SumIgnores(f0, wz.f, view, w.s.nVars);
  }

  // ----- taking weight off a core or a clique -----

  /** `d` was taken off soft literal `l`, counters and their debts being settled. */
  ghost predicate Lowered(w: World, w': World, l: Lit, d: nat) {
    && Base(w) && Base(w') && StoreStep(w.s, w'.s)
    && w'.p == w.p && w'.cut == w.cut && w'.f.cost == w.f.cost && w'.f.pending == w.f.pending
    && forall view | ViewOk(view, w'.s.defs) ::
         VarSum(w.f, view, w.s.nVars) == VarSum(w'.f, view, w'.s.nVars) + Pay(d, view, l)
  }

  /** Core literals: an output that lost its weight goes to the relax queue. */
  lemma LowerQueued(w: World, l: Lit, d: nat)
    requires Base(w) && 0 < d <= WeightOf(w.f.poids, l)
    ensures Lowered(w, Reweighed(w, l, WeightOf(w.f.poids, l) - d, WeightOf(w.f.poids, l) == d && l.v in w.f.a2c), l, d)
  {
    hide Base, StoreStep, Refile, LitAtMost, Soft, VarSum, Tail;
    var x := WeightOf(w.f.poids, l);
    var queue := x == d && l.v in w.f.a2c;
    var w' := Reweighed(w, l, x - d, queue);
    SoftFacts(w, l);
    BaseWf(w);
    ReweighedBase(w, l, x - d, queue);
    BaseStore(w);
    StoreStepReflexive(w.s);
    forall view ensures VarSum(w.f, view, w.s.nVars) == VarSum(w'.f, view, w.s.nVars) + Pay(d, view, l) {
      LowerQueuedValue(w.f, l, d, view, w.s.nVars);
    }
  }

  lemma LowerQueuedValue(f: Formula, l: Lit, d: nat, view: View, n: nat)
    requires WfCards(f) && 1 <= l.v <= n && l.v !in f.relaxing
    requires 0 < d <= WeightOf(f.poids, l)
    ensures var queue := WeightOf(f.poids, l) == d && l.v in f.a2c;
            var f' := f.(poids := SetWeight(f.poids, l, WeightOf(f.poids, l) - d),
                         relaxing := f.relaxing + if queue then {l.v} else {});
            WfCards(f') && VarSum(f, view, n) == VarSum(f', view, n) + Pay(d, view, l)
  {
    hide VarSum, Tail;
    var f1 := f.(poids := SetWeight(f.poids, l, WeightOf(f.poids, l) - d));
    LowerWeight(f, l, d, view, n);
    if WeightOf(f.poids, l) == d && l.v in f.a2c {
      StartRelaxing(f1, l.v, view, n);
      TailIgnores(f, f1, view, l.v);
    } else {
      assert f1.relaxing + {} == f1.relaxing;
    }
  }

  lemma BaseStore(w: World)
    requires Base(w)
    ensures Ok(w.s) && ForcedBelow(w.s, |w.s.arena|)
  {
  }

  /** Clique literals: an output that lost its weight is relaxed at once. */
  lemma LowerRelaxed(w: World, w': World, l: Lit, d: nat)
    requires Base(w) && 0 < d == WeightOf(w.f.poids, l)
    requires Relaxed(Reweighed(w, l, 0, false), w', l.v)
    requires w'.p == w.p && w'.cut == w.cut && w'.f.cost == w.f.cost && w'.f.pending == w.f.pending
    ensures Lowered(w, w', l, d)
  {
    hide Base, StoreStep, Refile, LitAtMost, Soft, VarSum, Tail;
    var w1 := Reweighed(w, l, 0, false);
    SoftFacts(w, l);
    BaseWf(w);
    BaseWf(w1);
    BaseWf(w');
    forall view | ViewOk(view, w'.s.defs)
      ensures VarSum(w.f, view, w.s.nVars) == VarSum(w'.f, view, w'.s.nVars) + Pay(d, view, l)
    {
      assert w1.f == w.f.(poids := SetWeight(w.f.poids, l, 0));
      LowerWeight(w.f, l, d, view, w.s.nVars);
      if l.v in w.f.a2c {
        TailIgnores(w.f, w1.f, view, l.v);
      }
    }
  }

  function PaySum(d: nat, view: View, ls: seq<Lit>): (r: nat) {
    if ls == [] then 0 else PaySum(d, view, ls[..|ls| - 1]) + Pay(d, view, ls[|ls| - 1])
  }

  /** `d` was taken off every literal of the list. */
  ghost predicate LoweredAll(w: World, w': World, ls: seq<Lit>, d: nat) {
    && Base(w) && Base(w') && StoreStep(w.s, w'.s)
    && w'.p == w.p && w'.cut == w.cut && w'.f.cost == w.f.cost && w'.f.pending == w.f.pending
    && forall view | ViewOk(view, w'.s.defs) ::
         VarSum(w.f, view, w.s.nVars) == VarSum(w'.f, view, w'.s.nVars) + PaySum(d, view, ls)
  }

  lemma LoweredParts(w: World, w': World, ls: seq<Lit>, d: nat)
    requires LoweredAll(w, w', ls, d)
    ensures Ok(w'.s) && WfCards(w.f) && WfCards(w'.f)
  {
    BaseStore(w');
  }

  lemma LoweredNone(w: World, d: nat)
    requires Base(w)
    ensures LoweredAll(w, w, [], d)
  {
    BaseStore(w);
    StoreStepReflexive(w.s);
  }

  lemma LoweredMore(w: World, w1: World, w2: World, ls: seq<Lit>, l: Lit, d: nat)
    requires LoweredAll(w, w1, ls, d) && Lowered(w1, w2, l, d)
    ensures LoweredAll(w, w2, ls + [l], d)
  {
    hide Base, Ok, ForcedBelow;
    BaseWf(w);
    BaseWf(w1);
    BaseWf(w2);
    StoreStepTransitive(w.s, w1.s, w2.s);
    assert (ls + [l])[..|ls|] == ls;
    forall view | ViewOk(view, w2.s.defs)
      ensures VarSum(w.f, view, w.s.nVars) == VarSum(w2.f, view, w2.s.nVars) + PaySum(d, view, ls + [l])
    {
      assert ViewOk(view, w1.s.defs) by {
        if view.Some? {
          RespectsSubset(view.value, w1.s.defs, w2.s.defs);
        }
      }
    }
  }

  /** In total: d for every falsified literal. */
  lemma {:induction false} PaySumCount(d: nat, view: View, ls: seq<Lit>)
    ensures PaySum(d, view, ls) == d * CountIn(view, Negated(ls))
  {
    if ls != [] {
      var n := |ls| - 1;
      PaySumCount(d, view, ls[..n]);
      assert Negated(ls) == Negated(ls[..n]) + [Neg(ls[n])];
      if view.Some? {
        CountConcat(view.value, Negated(ls[..n]), [Neg(ls[n])]);
        assert Count(view.value, [Neg(ls[n])]) == if True(view.value, ls[n]) then 0 else 1;
      }
      assert d * (CountIn(view, Negated(ls[..n])) + 1) == d * CountIn(view, Negated(ls[..n])) + d;
    }
  }

  /**
   A core is paid once; every further falsified literal is left to the counter.
   This is the step of `solve` that raises the lower bound.
   */
  lemma CoreStep(w: World, w': World, core: seq<Lit>, d: nat)
    requires LoweredAll(w, w', core, d) && core != [] && d > 0
    requires Unsat(w.s.clauses, ToSet(core)) && Consistent(core)
    requires forall l | l in core :: l.v <= w'.s.nVars && Soft(l, w'.s.defs, w'.s.inputs)
    ensures var w2 := w'.(f := w'.f.(cost := w'.f.cost + d, pending := w'.f.pending + [Pending(Negated(core), d)]));
            Step(w, w2)
  {
    var w2 := w'.(f := w'.f.(cost := w'.f.cost + d, pending := w'.f.pending + [Pending(Negated(core), d)]));
    CoreBase(w', core, d);
    BaseWf(w);
    BaseWf(w');
    hide Base, Ok, ForcedBelow;
    forall view | ViewOk(view, w'.s.defs) && CountIn(view, Negated(core)) >= 1
      ensures Value(w2.f, view, w'.s.nVars) == Value(w.f, view, w.s.nVars)
    {
      CoreValue(w, w', core, d, view);
    }
    forall e: Assignment | Respects(e, w2.s.defs) && Sat(e, w2.s.clauses)
      ensures Value(w2.f, Some(e), w2.s.nVars) == Value(w.f, Some(e), w.s.nVars)
    {
      assert Sat(e, w.s.clauses);
      CoreFalsified(e, core);
    }
  }

  lemma CoreFalsified(e: Assignment, core: seq<Lit>)
    requires !AllTrue(e, ToSet(core))
    ensures Count(e, Negated(core)) >= 1
  {
    var l :| l in core && !True(e, l);
    var i :| 0 <= i < |core| && core[i] == l;
    assert Negated(core)[i] in Negated(core);
    CountPositive(e, Negated(core));
  }

  lemma NegatedConsistent(core: seq<Lit>)
    requires Consistent(core)
    ensures Consistent(Negated(core))
  {
    forall l | l in Negated(core) ensures Neg(l) in core {
      var i :| 0 <= i < |core| && Negated(core)[i] == l;
      assert Neg(Neg(core[i])) == core[i];
    }
  }

  lemma CoreBase(w: World, core: seq<Lit>, d: nat)
    requires Base(w) && core != [] && d > 0 && Consistent(core)
    requires forall l | l in core :: l.v <= w.s.nVars && Soft(l, w.s.defs, w.s.inputs)
    ensures Base(w.(f := w.f.(cost := w.f.cost + d, pending := w.f.pending + [Pending(Negated(core), d)])))
  {
    hide Ok, ForcedBelow, IndexOk, Survive, Lift, Forces, OverInputs, LitAtMost, CardOk;
    var w2 := w.(f := w.f.(cost := w.f.cost + d, pending := w.f.pending + [Pending(Negated(core), d)]));
    forall v | v in w2.f.a2c ensures CounterOk(w2.s, w2.f, v) {
      assert CounterOk(w.s, w.f, v);
    }
    forall u | u in w2.f.poids && w2.f.poids[u] != 0 ensures Soft(SoftLit(w2.f, u), w2.s.defs, w2.s.inputs) {
      assert SoftLit(w2.f, u) == SoftLit(w.f, u);
    }
    forall l | l in Negated(core) ensures l.v <= w.s.nVars && Soft(Neg(l), w.s.defs, w.s.inputs) {
      assert Neg(l) in core;
    }
    NegatedConsistent(core);
    assert PendingOk(w2.s, Pending(Negated(core), d));
  }

  lemma CoreValue(w: World, w': World, core: seq<Lit>, d: nat, view: View)
    requires LoweredAll(w, w', core, d) && ViewOk(view, w'.s.defs) && CountIn(view, Negated(core)) >= 1
    ensures var f2 := w'.f.(cost := w'.f.cost + d, pending := w'.f.pending + [Pending(Negated(core), d)]);
            WfCards(f2) && Value(f2, view, w'.s.nVars) == Value(w.f, view, w.s.nVars)
  {
    hide Base, StoreStep, VarSum;
    BaseWf(w);
    BaseWf(w');
    var f2 := w'.f.(cost := w'.f.cost + d, pending := w'.f.pending + [Pending(Negated(core), d)]);
    SumIgnores(w'.f, f2, view, w'.s.nVars);
    PendingConcat(w'.f.pending, [Pending(Negated(core), d)], view);
    PaySumCount(d, view, core);
    var n := CountIn(view, Negated(core));
    ExcessStep(d, n, 0);
    assert Excess(n, 0) == n;
    assert PendingSum([Pending(Negated(core), d)], view) == d * Excess(n, 1) + PendingSum([], view);
  }

  // ----- at-most-one contraction -----

  /** A new soft literal "one of these", with weight x. */
  function WithSoftClause(w: World, lits: seq<Lit>, x: nat): (w': World) {
    var l := Lit(w.s.nVars + 1, true);
    w.(s := WithDisjunction(w.s, lits), f := w.f.(poids := SetWeight(w.f.poids, l, x)), index := Refile(w.index, l, 0, x))
  }

  /** All but one literal of a clique paid, the last left to "one of them". */
  function Contracted(w: World, clique: seq<Lit>, d: nat, paid: nat): (w': World) {
    WithSoftClause(w.(f := w.f.(cost := w.f.cost + paid)), clique, d)
  }

  lemma SoftClauseBase(w: World, lits: seq<Lit>, x: nat)
    requires Base(w) && x > 0 && forall l | l in lits :: l.v <= w.s.nVars && Soft(l, w.s.defs, w.s.inputs)
    ensures Base(WithSoftClause(w, lits, x)) && StoreStep(w.s, WithDisjunction(w.s, lits))
  {
    var s' := WithDisjunction(w.s, lits);
    var w1 := w.(s := s');
    var v := w.s.nVars + 1;
    NothingAbove(w, v);
    BaseStore(w);
    DisjunctionStep(w.s, lits);
    StoreStepKeeps(w.s, s', w.p, w.cut);
    assert Grown(w.s, s');
    ShapeStable(w, s');
    assert CardsOk(w1) by {
      forall d | 0 <= d < |w.cards| ensures CardOk(s', w.cards[d], d, w.asked[d], w.f.leaves[d]) {
        assert CardOk(w.s, w.cards[d], d, w.asked[d], w.f.leaves[d]);
      }
    }
    assert Base(w1);
    hide Base, StoreStep, CardsOk, Shape;
    ReweighedBase(w1, Lit(v, true), x, false);
    assert w1.f.relaxing + {} == w1.f.relaxing;
    assert WithSoftClause(w, lits, x) == Reweighed(w1, Lit(v, true), x, false);
  }

  lemma SoftClauseValue(w: World, lits: seq<Lit>, x: nat, view: View)
    requires Base(w) && x > 0 && forall l | l in lits :: l.v <= w.s.nVars && Soft(l, w.s.defs, w.s.inputs)
    ensures WfCards(WithSoftClause(w, lits, x).f)
    ensures VarSum(WithSoftClause(w, lits, x).f, view, w.s.nVars + 1)
         == VarSum(w.f, view, w.s.nVars) + Pay(x, view, Lit(w.s.nVars + 1, true))
  {
    var v := w.s.nVars + 1;
    NothingAbove(w, v);
    BaseWf(w);
    hide Base, VarSum, Refile;
    var w' := WithSoftClause(w, lits, x);
    SumGrow(w.f, view, w.s.nVars, v);
    NewSoft(w.f, Lit(v, true), x, view, v);
  }

  /** d for each of n but one. */
  function AllButOne(d: nat, n: nat): (r: nat)
    requires n > 0
  {
    d * (n - 1)
  }

  ghost predicate PairwiseIncompatible(clauses: set<Clause>, ls: seq<Lit>) {
    forall k, l | k in ls && l in ls && k != l :: Unsat(clauses, {k, l})
  }

  lemma {:induction false} AtMostOneTrue(clauses: set<Clause>, ls: seq<Lit>, e: Assignment)
    requires PairwiseIncompatible(clauses, ls) && Distinct(ls) && Sat(e, clauses)
    ensures Count(e, ls) <= 1
  {
    if ls != [] {
      AtMostOneTrue(clauses, ls[1..], e);
      if True(e, ls[0]) {
        forall l | l in ls[1..] ensures !True(e, l) {
          var j :| 1 <= j < |ls| && ls[j] == l;
          assert Unsat(clauses, {ls[0], ls[j]});
          assert !AllTrue(e, {ls[0], ls[j]});
        }
        CountPositive(e, ls[1..]);
      }
    }
  }

  /**
   `processAtMostOne`, one round: of pairwise incompatible literals all but one are paid,
   the last is left to a new literal "one of them".
   */
  lemma CliqueStep(w: World, w': World, clique: seq<Lit>, d: nat)
    requires LoweredAll(w, w', clique, d) && clique != [] && d > 0
    requires PairwiseIncompatible(w.s.clauses, clique) && Distinct(clique)
    requires forall l | l in clique :: l.v <= w'.s.nVars && Soft(l, w'.s.defs, w'.s.inputs)
    ensures Step(w, Contracted(w', clique, d, AllButOne(d, |clique|)))
  {
    hide Base, Ok, ForcedBelow, Soft, Value, Refile, WeightOf, SetWeight, AllButOne;
    var paid := AllButOne(d, |clique|);
    var w2 := Contracted(w', clique, d, paid);
    CostBase(w', w'.(f := w'.f.(cost := w'.f.cost + paid)));
    SoftClauseBase(w'.(f := w'.f.(cost := w'.f.cost + paid)), clique, d);
    StoreStepTransitive(w.s, w'.s, w2.s);
    BaseWf(w);
    BaseWf(w2);
    CliqueViewValue(w, w', clique, d, None);
    forall e: Assignment | Respects(e, w2.s.defs) && Sat(e, w2.s.clauses)
      ensures Value(w2.f, Some(e), w2.s.nVars) == Value(w.f, Some(e), w.s.nVars)
    {
      assert Sat(e, w.s.clauses);
      AtMostOneTrue(w.s.clauses, clique, e);
      CliqueViewValue(w, w', clique, d, Some(e));
    }
  }

  lemma CliqueViewValue(w: World, w': World, clique: seq<Lit>, d: nat, view: View)
    requires LoweredAll(w, w', clique, d) && clique != [] && d > 0
    requires forall l | l in clique :: l.v <= w'.s.nVars && Soft(l, w'.s.defs, w'.s.inputs)
    requires view.Some? ==> Respects(view.value, WithDisjunction(w'.s, clique).defs) && Count(view.value, clique) <= 1
    ensures WfCards(w.f) && WfCards(Contracted(w', clique, d, AllButOne(d, |clique|)).f)
    ensures Value(Contracted(w', clique, d, AllButOne(d, |clique|)).f, view, w'.s.nVars + 1) == Value(w.f, view, w.s.nVars)
  {
    hide LoweredAll, Value, Soft, WeightOf, PaySum, AllButOne, Pay, Ok, Contracted;
    LoweredParts(w, w', clique, d);
    if view.Some? {
      DisjunctionView(w'.s, clique, view.value);
    }
    CliquePayment(clique, d, view, w'.s.nVars + 1);
    CliqueValue(w, w', clique, d, AllButOne(d, |clique|), view);
  }

  lemma CostBase(w: World, w': World)
    requires Base(w) && w' == w.(f := w.f.(cost := w'.f.cost))
    ensures Base(w')
  {
    hide Ok, ForcedBelow, IndexOk, Survive, Lift, Forces, OverInputs, LitAtMost, CardOk;
    forall v | v in w'.f.a2c ensures CounterOk(w'.s, w'.f, v) {
      assert CounterOk(w.s, w.f, v);
    }
    forall u | u in w'.f.poids && w'.f.poids[u] != 0 ensures Soft(SoftLit(w'.f, u), w'.s.defs, w'.s.inputs) {
      assert SoftLit(w'.f, u) == SoftLit(w.f, u);
    }
  }

  lemma CliqueValue(w: World, w': World, clique: seq<Lit>, d: nat, paid: nat, view: View)
    requires LoweredAll(w, w', clique, d) && d > 0
    requires forall l | l in clique :: l.v <= w'.s.nVars && Soft(l, w'.s.defs, w'.s.inputs)
    requires ViewOk(view, w'.s.defs)
    requires PaySum(d, view, clique) == paid + Pay(d, view, Lit(w'.s.nVars + 1, true))
    ensures WfCards(w.f) && WfCards(Contracted(w', clique, d, paid).f)
    ensures Value(Contracted(w', clique, d, paid).f, view, w'.s.nVars + 1) == Value(w.f, view, w.s.nVars)
  {
    hide Base, StoreStep, VarSum, Refile, PendingSum, Soft, WeightOf, SetWeight, PaySum, ViewOk, Pay;
    var w1 := w'.(f := w'.f.(cost := w'.f.cost + paid));
    CostBase(w', w1);
    SoftClauseValue(w1, clique, d, view);
    BaseWf(w);
    BaseWf(w');
    SumIgnores(w'.f, w1.f, view, w'.s.nVars);
  }

  lemma DisjunctionView(s: Store, lits: seq<Lit>, e: Assignment)
    requires Ok(s) && Respects(e, WithDisjunction(s, lits).defs)
    ensures Respects(e, s.defs) && (s.nVars + 1 in e <==> Count(e, lits) > 0)
  {
    RespectsSubset(e, s.defs, WithDisjunction(s, lits).defs);
    assert s.nVars + 1 in WithDisjunction(s, lits).defs;
  }

  /** All but one are falsified, and the last exactly when "one of them" is. */
  lemma CliquePayment(clique: seq<Lit>, d: nat, view: View, v: nat)
    requires clique != []
    requires view.Some? ==> Count(view.value, clique) <= 1 && (v in view.value <==> Count(view.value, clique) > 0)
    ensures PaySum(d, view, clique) == AllButOne(d, |clique|) + Pay(d, view, Lit(v, true))
  {
    PaySumCount(d, view, clique);
    if view.Some? {
      CountNegated(view.value, clique);
    }
    AllAndOne(d, |clique|);
    hide PaySum, Count, Negated;
  }

  lemma AllAndOne(d: nat, n: nat)
    requires n > 0
    ensures d * n == AllButOne(d, n) + d
  {
  }

  // ----- building the counter of a core -----

  /** The first pending core, its counter built and output 1 soft: paid exactly as before. */
  lemma CounterStep(w: World, w1: World, s': Store, t': Tree)
    requires Base(w) && w.f.pending != []
    requires w1.f.leaves != [] && |w1.cards| == |w1.f.leaves| == |w1.asked|
    requires w1.s.nVars == w.s.nVars && w1.s.defs == w.s.defs && w1.s.clauses == w.s.clauses && w1.s.inputs == w.s.inputs
    requires w1.f == w.f.(leaves := w1.f.leaves, pending := w.f.pending[1..])
    requires multiset(w1.f.leaves[|w1.f.leaves| - 1]) == multiset(w.f.pending[0].lits)
    requires WfCards(w1.f) && w1.p == w.p
    requires forall view :: VarSum(w1.f, view, w1.s.nVars) == VarSum(w.f, view, w.s.nVars)
    requires OutputReady(w1, s', t', w1.s.nVars + 1, LitCard(|w1.cards| - 1, 1, w.f.pending[0].w))
    requires |w.f.pending[0].lits| > 1
    ensures Step(w, WithOutput(w1, s', t', w1.s.nVars + 1, LitCard(|w1.cards| - 1, 1, w.f.pending[0].w)))
  {
    hide Base, Ok, ForcedBelow, LitAtMost, Asked, CardOk, VarSum, PendingSum, SetWeight, Refile;
    var c := LitCard(|w1.cards| - 1, 1, w.f.pending[0].w);
    var v := w1.s.nVars + 1;
    var w2 := WithOutput(w1, s', t', v, c);
    WithOutputBase(w1, s', t', v, c);
    BaseWf(w);
    BaseWf(w2);
    forall view | ViewOk(view, s'.defs)
      ensures Value(w2.f, view, s'.nVars) == Value(w.f, view, w.s.nVars)
    {
      CounterValue(w, w1, s', t', view);
    }
    forall e: Assignment | Respects(e, w2.s.defs) && Sat(e, w2.s.clauses)
      ensures Value(w2.f, Some(e), w2.s.nVars) == Value(w.f, Some(e), w.s.nVars)
    {
      assert ViewOk(Some(e), s'.defs);
    }
    assert ViewOk(None, s'.defs);
  }

  lemma CounterValue(w: World, w1: World, s': Store, t': Tree, view: View)
    requires w.f.pending != [] && WfCards(w.f) && WfCards(w1.f)
    requires w1.f.leaves != [] && |w1.cards| == |w1.f.leaves| == |w1.asked|
    requires w1.f == w.f.(leaves := w1.f.leaves, pending := w.f.pending[1..])
    requires multiset(w1.f.leaves[|w1.f.leaves| - 1]) == multiset(w.f.pending[0].lits)
    requires VarSum(w1.f, view, w1.s.nVars) == VarSum(w.f, view, w.s.nVars)
    requires OutputReady(w1, s', t', w1.s.nVars + 1, LitCard(|w1.cards| - 1, 1, w.f.pending[0].w))
    requires |w.f.pending[0].lits| > 1 && ViewOk(view, s'.defs)
    ensures var w2 := WithOutput(w1, s', t', w1.s.nVars + 1, LitCard(|w1.cards| - 1, 1, w.f.pending[0].w));
            WfCards(w2.f) && Value(w2.f, view, s'.nVars) == Value(w.f, view, w.s.nVars)
  {
    hide Base, Ok, ForcedBelow, LitAtMost, Asked, CardOk, StoreStep, VarSum;
    var leaves := w1.f.leaves[|w1.f.leaves| - 1];
    assert |multiset(leaves)| == |multiset(w.f.pending[0].lits)|;
    if view.Some? {
      CountPermutation(view.value, leaves, w.f.pending[0].lits);
    }
    WithOutputValue(w1, s', t', w1.s.nVars + 1, LitCard(|w1.cards| - 1, 1, w.f.pending[0].w), view);
  }

  /** A core of one literal needs no counter. */
  lemma TrivialCounterStep(w: World)
    requires Base(w) && w.f.pending != [] && |w.f.pending[0].lits| == 1
    ensures Step(w, w.(f := w.f.(pending := w.f.pending[1..])))
  {
    var w' := w.(f := w.f.(pending := w.f.pending[1..]));
    PendingBase(w, w');
    BaseWf(w);
    hide Base;
    forall view ensures Value(w'.f, view, w.s.nVars) == Value(w.f, view, w.s.nVars) {
      SumIgnores(w.f, w'.f, view, w.s.nVars);
      assert CountIn(view, w.f.pending[0].lits) <= 1;
      assert Excess(CountIn(view, w.f.pending[0].lits), 1) == 0;
    }
  }

  lemma PendingBase(w: World, w': World)
    requires Base(w) && w.f.pending != [] && w' == w.(f := w.f.(pending := w.f.pending[1..]))
    ensures Base(w')
  {
    hide Ok, ForcedBelow, IndexOk, Survive, Lift, Forces, OverInputs, LitAtMost, CardOk;
    forall v | v in w'.f.a2c ensures CounterOk(w'.s, w'.f, v) {
      assert CounterOk(w.s, w.f, v);
    }
    forall u | u in w'.f.poids && w'.f.poids[u] != 0 ensures Soft(SoftLit(w'.f, u), w'.s.defs, w'.s.inputs) {
      assert SoftLit(w'.f, u) == SoftLit(w.f, u);
    }
    forall i | 0 <= i < |w'.f.pending| ensures PendingOk(w'.s, w'.f.pending[i]) {
      assert PendingOk(w.s, w.f.pending[i + 1]);
    }
  }

  // ----- taking weight off in any order -----

  lemma LoweredPermute(w: World, w': World, a: seq<Lit>, b: seq<Lit>, d: nat)
    requires LoweredAll(w, w', a, d) && multiset(a) == multiset(b)
    ensures LoweredAll(w, w', b, d)
  {
    hide Base, StoreStep, VarSum;
    forall view ensures PaySum(d, view, a) == PaySum(d, view, b) {
      PaySumPermute(d, view, a, b);
    }
  }

  lemma PaySumPermute(d: nat, view: View, a: seq<Lit>, b: seq<Lit>)
    requires multiset(a) == multiset(b)
    ensures PaySum(d, view, a) == PaySum(d, view, b)
  {
    PaySumCount(d, view, a);
    PaySumCount(d, view, b);
    assert |a| == |multiset(a)| == |b|;
    if view.Some? {
      CountNegated(view.value, a);
      CountNegated(view.value, b);
      CountPermutation(view.value, a, b);
    }
  }

  /** A soft literal that lost its whole weight can be relaxed at once. */
  lemma RelaxReady(w: World, l: Lit)
    requires Base(w) && WeightOf(w.f.poids, l) > 0
    ensures Base(Reweighed(w, l, 0, false)) && Due(Reweighed(w, l, 0, false), l.v)
  {
    hide Base;
    var w0 := Reweighed(w, l, 0, false);
    SoftFacts(w, l);
    ReweighedBase(w, l, 0, false);
    LiveDue(w, l, w.f.relaxing);
    assert w0.f.relaxing == w.f.relaxing;
    assert w0.f == Zeroed(w, l).f;
  }

  lemma LoweredBase(w: World, w': World, ls: seq<Lit>, d: nat)
    requires LoweredAll(w, w', ls, d)
    ensures Base(w')
  {
  }

  lemma LoweredGrows(w: World, w': World, l: Lit, d: nat)
    requires Lowered(w, w', l, d)
    ensures w'.s.nVars >= w.s.nVars
  {
  }

  /** Soft literals of a list are variables of the solver, no two of them the same. */
  lemma SoftVars(w: World, ls: seq<Lit>)
    requires Base(w) && forall l | l in ls :: WeightOf(w.f.poids, l) > 0
    ensures forall l | l in ls :: l.v <= w.s.nVars
    ensures forall k, l | k in ls && l in ls && k != l :: k.v != l.v
  {
    hide Base;
    forall l | l in ls ensures l.v <= w.s.nVars {
      SoftFacts(w, l);
    }
    forall k, l | k in ls && l in ls && k != l ensures k.v != l.v {
      assert WeightOf(w.f.poids, k) > 0 && WeightOf(w.f.poids, l) > 0;
    }
  }

  lemma CliqueSoft(w: World, w': World, ls: seq<Lit>, d: nat)
    requires LoweredAll(w, w', ls, d) && forall l | l in ls :: WeightOf(w.f.poids, l) > 0
    ensures forall l | l in ls :: l.v <= w'.s.nVars && Soft(l, w'.s.defs, w'.s.inputs)
  {
    hide Base, Ok, ForcedBelow;
    forall l | l in ls ensures l.v <= w'.s.nVars && Soft(l, w'.s.defs, w'.s.inputs) {
      SoftFacts(w, l);
      SoftStable(l, w.s, w'.s);
    }
  }

  lemma PairwiseStable(clauses: set<Clause>, clauses': set<Clause>, ls: seq<Lit>, ls': seq<Lit>)
    requires PairwiseIncompatible(clauses, ls) && clauses <= clauses'
    requires forall l | l in ls' :: l in ls
    ensures PairwiseIncompatible(clauses', ls')
  {
    assert forall m: Assignment | Sat(m, clauses') :: Sat(m, clauses);
  }

  // ----- the relax queue -----

  function Unqueued(w: World, v: nat): (w': World) {
    w.(f := w.f.(relaxing := w.f.relaxing - {v}))
  }

  lemma UnqueuedBase(w: World, v: nat)
    requires Base(w) && v in w.f.relaxing
    ensures Base(Unqueued(w, v)) && Due(Unqueued(w, v), v) && 1 <= v <= w.s.nVars
  {
    hide Ok, ForcedBelow, IndexOk, Survive, Lift, Forces, OverInputs, LitAtMost, CardOk;
    var w' := Unqueued(w, v);
    assert CounterOk(w.s, w.f, v);
    forall u | u in w'.f.a2c ensures CounterOk(w'.s, w'.f, u) && (Live(w'.f, u) ==> Live(w.f, u) && u != v) {
      assert CounterOk(w.s, w.f, u);
    }
    forall u | u in w'.f.poids && w'.f.poids[u] != 0 ensures Soft(SoftLit(w'.f, u), w'.s.defs, w'.s.inputs) {
      assert SoftLit(w'.f, u) == SoftLit(w.f, u);
    }
  }

  /** Taking a variable from the queue and relaxing it changes no value. */
  lemma UnqueueStep(w: World, w': World, v: nat)
    requires Base(w) && v in w.f.relaxing && Relaxed(Unqueued(w, v), w', v)
    requires w'.p == w.p && w'.f.cost == w.f.cost && w'.f.pending == w.f.pending
    ensures Step(w, w')
  {
    hide Base, Ok, ForcedBelow, VarSum, Tail, PendingSum;
    UnqueuedBase(w, v);
    RelaxingFacts(w, v);
    BaseWf(w);
    BaseWf(w');
    var wz := Unqueued(w, v);
    forall view | ViewOk(view, w'.s.defs)
      ensures VarSum(w'.f, view, w'.s.nVars) == VarSum(w.f, view, w.s.nVars)
    {
      assert wz.f.(relaxing := wz.f.relaxing + {v}).relaxing == w.f.relaxing;
      assert wz.f.(relaxing := wz.f.relaxing + {v}) == w.f;
      StartRelaxing(wz.f, v, view, w.s.nVars);
    }
    assert ViewOk(None, w'.s.defs);
    forall e: Assignment | Respects(e, w'.s.defs) && Sat(e, w'.s.clauses)
      ensures Value(w'.f, Some(e), w'.s.nVars) == Value(w.f, Some(e), w.s.nVars)
    {
      assert ViewOk(Some(e), w'.s.defs);
    }
  }

  lemma RelaxingFacts(w: World, v: nat)
    requires Base(w) && v in w.f.relaxing
    ensures v in w.f.a2c && v in w.f.poids && w.f.poids[v] == 0
  {
  }

  // ----- a counter that is not needed -----

  lemma GrowsBase(w: World, s': Store)
    requires Base(w) && Grows(w.s, s') && Ok(s')
    ensures Base(w.(s := s'))
  {
    OkSizes(w.s);
    OkSizes(s');
    hide Ok, LitAtMost, Survive, Lift, Forces, IndexOk, OverInputs, ForcedBelow, TreeOk, Rooted, Unasked;
    var w' := w.(s := s');
    assert ForcedBelow(s', |s'.arena|);
    StoreClauses(w.s, s', w.p, w.cut);
    GrowsShape(w, s');
    forall d | 0 <= d < |w.cards| ensures CardOk(s', w.cards[d], d, w.asked[d], w.f.leaves[d]) {
      assert CardOk(w.s, w.cards[d], d, w.asked[d], w.f.leaves[d]);
      CardStable(w.s, s', w.cards[d], d, w.asked[d], w.f.leaves[d]);
    }
  }

  lemma GrowsShape(w: World, s': Store)
    requires Shape(w) && Grows(w.s, s')
    ensures Shape(w.(s := s'))
  {
    hide ForcedBelow;
    assert Grown(w.s, s');
    ShapeStable(w, s');
  }

  lemma GrowsStep(w: World, s': Store)
    requires Base(w) && Grows(w.s, s') && Ok(s')
    ensures Step(w, w.(s := s'))
  {
    GrowsBase(w, s');
    BaseWf(w);
    hide Base, Ok, ForcedBelow;
  }

  /** The pieces that make output 1 of a new counter ready. */
  lemma FirstOutputReady(w: World, w1: World, s1: Store, t: Tree, s': Store, t': Tree)
    requires Base(w) && w.f.pending != [] && Grows(w.s, s1) && Ok(s1) && multiset(Leaves(t)) == multiset(w.f.pending[0].lits)
    requires w1 == WithCard(w.(f := w.f.(pending := w.f.pending[1..])), s1, t)
    requires TreeOk(t, s1.meaning) && Rooted(t, s1.tops, |w.cards|) && Unasked(s1, t, 1)
    requires Ok(s') && ForcedBelow(s', |s'.arena|) && Asked(s1, s', |w.cards|)
    requires TreeOk(t', s'.meaning) && Rooted(t', s'.tops, |w.cards|) && Leaves(t') == Leaves(t) && Unasked(s', t', 2)
    requires IsCounter(s1.nVars + 1, s'.defs)
    requires LitAtMost(Lit(s1.nVars + 1, false), Leaves(t), 1, s'.defs, s'.clauses)
    ensures Base(w1) && OutputReady(w1, s', t', s1.nVars + 1, LitCard(|w.cards|, 1, w.f.pending[0].w))
  {
    hide Base, Ok, ForcedBelow, TreeOk, Rooted, Unasked, LitAtMost, Grows;
    var wp := w.(f := w.f.(pending := w.f.pending[1..]));
    PendingBase(w, wp);
    FirstPending(w);
    ConsistentPermutation(w.f.pending[0].lits, Leaves(t));
    CardCounts(w);
    WithCardBase(wp, s1, t);
    NewCardFree(w);
    DefinedBelow(s', s1.nVars + 1);
  }

  lemma ConsistentPermutation(a: seq<Lit>, b: seq<Lit>)
    requires Consistent(a) && multiset(a) == multiset(b)
    ensures Consistent(b)
  {
    forall l ensures l in a <==> l in b {
      assert l in multiset(a) <==> l in multiset(b);
    }
  }

  lemma FirstPending(w: World)
    requires Base(w) && w.f.pending != []
    ensures PendingOk(w.s, w.f.pending[0])
  {
  }

  lemma DefinedBelow(s: Store, v: nat)
    requires Ok(s) && v in s.defs
    ensures v <= s.nVars
  {
  }

  lemma CardCounts(w: World)
    requires Base(w)
    ensures |w.cards| == |w.asked| == |w.f.leaves|
  {
  }

  lemma NewCardFree(w: World)
    requires Base(w)
    ensures forall u | u in w.f.a2c :: w.f.a2c[u].card < |w.cards|
  {
    BaseWf(w);
    CardCounts(w);
  }

  lemma StepFacts(w: World, w': World)
    requires Step(w, w')
    ensures Base(w) && Base(w') && w'.p == w.p && w.s.clauses <= w'.s.clauses && w'.f.cost >= w.f.cost
    ensures w'.s.inputs == w.s.inputs && w'.s.nVars >= w.s.nVars
  {
  }

  /** The state after the first pending core got its counter, field by field. */
  lemma FirstOutputStep(w: World, w': World, s1: Store, t: Tree, t': Tree)
    requires Base(w) && w.f.pending != [] && Grows(w.s, s1) && Ok(s1)
    requires TreeOk(t, s1.meaning) && Rooted(t, s1.tops, |w.cards|) && Unasked(s1, t, 1)
    requires multiset(Leaves(t)) == multiset(w.f.pending[0].lits) && |Leaves(t)| > 1
    requires Ok(w'.s) && ForcedBelow(w'.s, |w'.s.arena|) && Asked(s1, w'.s, |w.cards|)
    requires TreeOk(t', w'.s.meaning) && Rooted(t', w'.s.tops, |w.cards|) && Leaves(t') == Leaves(t) && Unasked(w'.s, t', 2)
    requires IsCounter(s1.nVars + 1, w'.s.defs)
    requires LitAtMost(Lit(s1.nVars + 1, false), Leaves(t), 1, w'.s.defs, w'.s.clauses)
    requires var x, l := w.f.pending[0].w, Lit(s1.nVars + 1, false);
             w' == World(w'.s, w.f.(poids := SetWeight(w.f.poids, l, x), a2c := w.f.a2c[l.v := LitCard(|w.cards|, 1, x)],
                                    leaves := w.f.leaves + [Leaves(t)], pending := w.f.pending[1..]),
                         w.cards + [t'], w.asked + [2], w.p, File(w.index, x, l), w.cut)
    ensures Step(w, w')
  {
    hide Base, Ok, ForcedBelow, TreeOk, Rooted, Unasked, LitAtMost, Asked, Step, OutputReady, Leaves, VarSum, Grows;
    var wp := w.(f := w.f.(pending := w.f.pending[1..]));
    var w1 := WithCard(wp, s1, t);
    var c := LitCard(|w.cards|, 1, w.f.pending[0].w);
    FirstOutputReady(w, w1, s1, t, w'.s, t');
    CardCounts(w);
    BaseWf(w);
    FirstPending(w);
    GrowsSame(w.s, s1);
    assert |multiset(Leaves(t))| == |multiset(w.f.pending[0].lits)|;
    forall view ensures VarSum(w1.f, view, w1.s.nVars) == VarSum(w.f, view, w.s.nVars) {
      SumIgnores(w.f, wp.f, view, w.s.nVars);
      WithCardValue(wp, s1, t, view);
    }
    WithCardValue(wp, s1, t, None);
    CounterStep(w, w1, w'.s, t');
    assert w'.cards == w1.cards[c.card := t'];
    assert w'.asked == w1.asked[c.card := c.k + 1];
    assert w' == WithOutput(w1, w'.s, t', s1.nVars + 1, c);
  }

  lemma GrowsSame(s: Store, s': Store)
    requires Grows(s, s')
    ensures s'.nVars == s.nVars && s'.defs == s.defs && s'.clauses == s.clauses && s'.inputs == s.inputs
  {
  }

  lemma NoCounterStep(w: World, w': World, s1: Store)
    requires Base(w) && w.f.pending != [] && |w.f.pending[0].lits| == 1 && Grows(w.s, s1) && Ok(s1)
    requires w' == w.(s := s1, f := w.f.(pending := w.f.pending[1..]))
    ensures Step(w, w')
  {
    hide Base, Step, Grows, Ok;
    GrowsStep(w, s1);
    StepFacts(w, w.(s := s1));
    TrivialCounterStep(w.(s := s1));
    StepTransitive(w, w.(s := s1), w');
  }

  // ----- progress -----

  /** The worst case above the lower bound: what is left to be paid at most. */
  ghost function Slack(w: World): (r: nat) {
    if WfCards(w.f) then VarSum(w.f, None, w.s.nVars) + PendingSum(w.f.pending, None) else 0
  }

  /** No step adds slack, and one that raises the lower bound uses some up. */
  lemma StepSlack(w: World, w': World)
    requires Step(w, w')
    ensures Slack(w') <= Slack(w) && (w'.f.cost > w.f.cost ==> Slack(w') < Slack(w))
  {
    BaseWf(w);
    BaseWf(w');
    hide Base;
  }

  /** Hardening against a bound lowers the cut-off. */
  lemma LowerCut(w: World, u: nat)
    requires Base(w) && (w.cut.Some? ==> u <= w.cut.value)
    ensures Step(w, w.(cut := Some(u)))
  {
    hide Ok, ForcedBelow, Shape, IndexOk, Lift, Forces, OverInputs, CardOk;
    var w' := w.(cut := Some(u));
    assert Survive(w'.s, w'.p, w'.cut) by {
      forall e: Assignment | Respects(e, w.s.defs) && Sat(e, w.p.hard) && Cheaper(w.p, w'.cut, e) ensures Sat(e, w.s.clauses) {
        assert Cheaper(w.p, w.cut, e);
      }
    }
    SameShape(w, w');
    assert Base(w');
  }

  lemma SameShape(w: World, w': World)
    requires Shape(w) && w'.s == w.s && w'.f == w.f && w'.asked == w.asked
    ensures Shape(w')
  {
  }
}
