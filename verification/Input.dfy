/**
 Entering the problem: input variables, hard clauses and weighted soft clauses.
 */
module Input {
  import opened Cnf
  import opened Definitions
  import opened Totalizer
  import opened Objective
  import opened Engine
  import opened Steps

  function WithInput(s: Store): (s': Store) {
    s.(nVars := s.nVars + 1, inputs := s.inputs + {s.nVars + 1})
  }

  lemma WithInputOk(s: Store)
    requires Ok(s)
    ensures Ok(WithInput(s))
  {
    var s' := WithInput(s);
    forall l: Lit | Soft(l, s.defs, s.inputs) ensures Soft(l, s'.defs, s'.inputs) {
    }
    forall v | v in s'.defs ensures WfDef(v, s'.defs[v], s'.defs, s'.inputs) {
      assert WfDef(v, s.defs[v], s.defs, s.inputs);
    }
    forall i | 0 <= i < |s.arena|
      ensures OutExact(s'.arena[i], s'.meaning[i], s'.defs)
      ensures LitsOk(s'.meaning[i], s'.nVars, s'.defs, s'.inputs)
    {
      assert OutExact(s.arena[i], s.meaning[i], s.defs);
      assert LitsOk(s.meaning[i], s.nVars, s.defs, s.inputs);
    }
  }

  lemma WithInputShape(w: World)
    requires Shape(w)
    ensures Shape(w.(s := WithInput(w.s)))
  {
    hide LitAtMost;
    var s' := WithInput(w.s);
    forall l: Lit | Soft(l, w.s.defs, w.s.inputs) ensures Soft(l, s'.defs, s'.inputs) {
    }
    forall v | v in w.f.a2c ensures CounterOk(s', w.f, v) {
      assert CounterOk(w.s, w.f, v);
    }
    forall i | 0 <= i < |w.f.pending| ensures PendingOk(s', w.f.pending[i]) {
      assert PendingOk(w.s, w.f.pending[i]);
    }
  }

  /** A new input variable changes nothing. */
  lemma NewInput(w: World)
    requires Inv(w)
    ensures Inv(w.(s := WithInput(w.s)))
  {
    var s' := WithInput(w.s);
    var w' := w.(s := s');
    WithInputOk(w.s);
    WithInputShape(w);
    assert CardsOk(w') by {
      forall d | 0 <= d < |w.cards| ensures CardOk(s', w.cards[d], d, w.asked[d], w.f.leaves[d]) {
        assert CardOk(w.s, w.cards[d], d, w.asked[d], w.f.leaves[d]);
      }
    }
    hide Ok, ForcedBelow, IndexOk, CardsOk;
    assert Base(w');
    NothingAbove(w, s'.nVars);
    forall e: Assignment | Respects(e, s'.defs) && Sat(e, s'.clauses)
      ensures CostOf(w.p.soft, e) == Value(w.f, Some(e), s'.nVars)
    {
      SumGrow(w.f, Some(e), w.s.nVars, s'.nVars);
    }
  }

  /** A clause over the inputs joins the hard clauses of the problem. */
  lemma NewHard(w: World, c: Clause)
    requires Inv(w) && forall l | l in c :: l.v in w.s.inputs
    ensures var w' := w.(p := w.p.(hard := w.p.hard + {c})); Base(w') && Admissible(w'.s, w'.p, w'.cut, c)
  {
    var w' := w.(p := w.p.(hard := w.p.hard + {c}));
    assert forall e: Assignment | Sat(e, w'.p.hard) :: Sat(e, w.p.hard);
    SameShape(w, w');
    forall m: Assignment, e: Assignment |
      Sat(m, w.s.clauses) && SatClause(m, c) && Respects(e, w.s.defs) && Agree(m, e, w.s.inputs)
      ensures SatClause(e, c)
    {
      AgreeClause(m, e, c);
    }
    assert c in w'.p.hard;
  }

  lemma HardAdded(w: World, w': World, c: Clause)
    requires Inv(w) && Step(w.(p := w.p.(hard := w.p.hard + {c})), w') && c in w'.s.clauses
    ensures Inv(w')
  {
    BaseWf(w');
    hide Base;
    forall e: Assignment | Respects(e, w'.s.defs) && Sat(e, w'.s.clauses)
      ensures CostOf(w'.p.soft, e) == Value(w'.f, Some(e), w'.s.nVars)
    {
      RespectsSubset(e, w.s.defs, w'.s.defs);
    }
  }

  /** The state pays for the new soft clause exactly when it is falsified. */
  lemma SoftAdded(w: World, w': World, c: Clause, x: nat)
    requires Inv(w) && Base(w') && w'.p == w.p && forall l | l in c :: l.v in w'.s.inputs
    requires Extends(w.s.defs, w'.s.defs) && w.s.clauses <= w'.s.clauses && w'.cut.None?
    requires forall e: Assignment | Respects(e, w'.s.defs) && Sat(e, w'.s.clauses) ::
               Value(w'.f, Some(e), w'.s.nVars) == Value(w.f, Some(e), w.s.nVars) + if SatClause(e, c) then 0 else x
    ensures Inv(w'.(p := w'.p.(soft := w'.p.soft + [SoftClause(c, x)])))
  {
    var w2 := w'.(p := w'.p.(soft := w'.p.soft + [SoftClause(c, x)]));
    SameShape(w', w2);
    hide Ok, ForcedBelow, Shape, IndexOk, Forces, Lift;
    assert CardsOk(w2);
    assert Survive(w2.s, w2.p, None) by {
      forall e: Assignment | Respects(e, w2.s.defs) && Sat(e, w2.p.hard) ensures Sat(e, w2.s.clauses) {
        assert Cheaper(w'.p, w'.cut, e);
      }
    }
    forall i, l | 0 <= i < |w2.p.soft| && l in w2.p.soft[i].clause ensures l.v in w2.s.inputs {
      if i < |w'.p.soft| {
        assert l in w'.p.soft[i].clause;
      }
    }
    assert Base(w2);
    forall e: Assignment | Respects(e, w2.s.defs) && Sat(e, w2.s.clauses)
      ensures CostOf(w2.p.soft, e) == Value(w2.f, Some(e), w2.s.nVars)
    {
      RespectsSubset(e, w.s.defs, w'.s.defs);
      CostConcat(w'.p.soft, [SoftClause(c, x)], e);
      assert CostOf([SoftClause(c, x)], e) == (if SatClause(e, c) then 0 else x) + CostOf([], e);
    }
  }

  /** Input literals may be soft in either polarity and belong to no counter. */
  lemma InputFacts(w: World, l: Lit)
    requires Base(w) && l.v in w.s.inputs
    ensures 1 <= l.v <= w.s.nVars && Soft(l, w.s.defs, w.s.inputs) && l.v !in w.f.a2c && l.v !in w.f.relaxing
  {
    assert l.v in w.f.a2c ==> CounterOk(w.s, w.f, l.v);
  }

  /** Weight x more on an input literal that is not weighted the other way. */
  lemma Raise(w: World, l: Lit, x: nat)
    requires Base(w) && l.v in w.s.inputs && WeightOf(w.f.poids, l) >= 0 && x > 0
    ensures var w' := Reweighed(w, l, WeightOf(w.f.poids, l) + x, false);
            Base(w') && forall view :: Value(w'.f, view, w.s.nVars) == Value(w.f, view, w.s.nVars) + Pay(x, view, l)
  {
    hide Base, Refile, VarSum, PendingSum, Soft;
    var a := WeightOf(w.f.poids, l);
    var w' := Reweighed(w, l, a + x, false);
    InputFacts(w, l);
    ReweighedBase(w, l, a + x, false);
    BaseWf(w);
    assert w'.f.relaxing == w.f.relaxing;
    assert w'.f == w.f.(poids := SetWeight(w.f.poids, l, a + x));
    forall view ensures VarSum(w'.f, view, w.s.nVars) == VarSum(w.f, view, w.s.nVars) + Pay(x, view, l) {
      LowerWeight(w'.f, l, x, view, w.s.nVars);
      SumSetBack(w.f, l, a + x, view, w.s.nVars);
    }
  }

  lemma SumSetBack(f: Formula, l: Lit, x: int, view: View, n: nat)
    requires WfCards(f)
    ensures VarSum(f.(poids := SetWeight(SetWeight(f.poids, l, x), l, WeightOf(f.poids, l))), view, n) == VarSum(f, view, n)
  {
    var f' := f.(poids := SetWeight(SetWeight(f.poids, l, x), l, WeightOf(f.poids, l)));
    forall v ensures VarTerm(f', view, v) == VarTerm(f, view, v) {
      TermFrame(f, f', view, v);
    }
    SumSame(f, f', view, n);
  }

  function Canceled(w: World, l: Lit, x: nat): (w': World)
    requires x <= WeightOf(w.f.poids, Neg(l))
  {
    var w0 := Reweighed(w, Neg(l), WeightOf(w.f.poids, Neg(l)) - x, false);
    w0.(f := w0.f.(cost := w0.f.cost + x))
  }

  /** Opposite weights cancel: the smaller is paid in any case. */
  lemma Cancel(w: World, l: Lit, x: nat)
    requires Base(w) && l.v in w.s.inputs && 0 < x <= WeightOf(w.f.poids, Neg(l))
    ensures var w' := Canceled(w, l, x);
            Base(w') && forall view: View | view.Some? :: Value(w'.f, view, w.s.nVars) == Value(w.f, view, w.s.nVars) + Pay(x, view, l)
  {
    hide Base, Refile, VarSum, PendingSum, Soft, SetWeight;
    var a := WeightOf(w.f.poids, Neg(l));
    var w0 := Reweighed(w, Neg(l), a - x, false);
    var w' := w0.(f := w0.f.(cost := w0.f.cost + x));
    InputFacts(w, Neg(l));
    ReweighedBase(w, Neg(l), a - x, false);
    CostBase(w0, w');
    BaseWf(w);
    assert w0.f.relaxing == w.f.relaxing;
    assert w0.f == w.f.(poids := SetWeight(w.f.poids, Neg(l), a - x));
    forall view: View | view.Some? ensures Value(w'.f, view, w.s.nVars) == Value(w.f, view, w.s.nVars) + Pay(x, view, l) {
      LowerWeight(w.f, Neg(l), x, view, w.s.nVars);
      SumIgnores(w0.f, w'.f, view, w.s.nVars);
      assert True(view.value, l) <==> !True(view.value, Neg(l));
    }
  }

  /** A unit soft clause is a weight on its literal. */
  lemma UnitAdded(w: World, w': World, l: Lit, x: nat)
    requires Inv(w) && Base(w') && w'.p == w.p && w'.s == w.s && l.v in w.s.inputs && w'.cut.None?
    requires forall view: View | view.Some? :: Value(w'.f, view, w.s.nVars) == Value(w.f, view, w.s.nVars) + Pay(x, view, l)
    ensures Inv(w'.(p := w'.p.(soft := w'.p.soft + [SoftClause([l], x)])))
  {
    BaseWf(w');
    hide Inv, Base, Value;
    forall e: Assignment
      ensures Value(w'.f, Some(e), w'.s.nVars) == Value(w.f, Some(e), w.s.nVars) + if SatClause(e, [l]) then 0 else x
    {
      assert SatClause(e, [l]) <==> True(e, l) by {
        assert l in [l];
      }
    }
    SoftAdded(w, w', [l], x);
  }

  /** A longer soft clause is a soft literal "one of these". */
  lemma DisjunctionAdded(w: World, c: Clause, x: nat)
    requires Inv(w) && x > 0 && w.cut.None? && forall l | l in c :: l.v in w.s.inputs
    ensures var w' := WithSoftClause(w, c, x); Inv(w'.(p := w'.p.(soft := w'.p.soft + [SoftClause(c, x)])))
  {
    hide Base, Identity, Ok, ForcedBelow, VarSum, PendingSum, SetWeight, Refile;
    var w' := WithSoftClause(w, c, x);
    forall l | l in c ensures l.v <= w.s.nVars && Soft(l, w.s.defs, w.s.inputs) {
      InputFacts(w, l);
    }
    SoftClauseBase(w, c, x);
    BaseStore(w);
    BaseWf(w');
    forall e: Assignment | Respects(e, w'.s.defs) && Sat(e, w'.s.clauses)
      ensures Value(w'.f, Some(e), w'.s.nVars) == Value(w.f, Some(e), w.s.nVars) + if SatClause(e, c) then 0 else x
    {
      SoftClauseValue(w, c, x, Some(e));
      DisjunctionView(w.s, c, e);
      CountPositive(e, c);
    }
    SoftAdded(w, w', c, x);
  }

  /** An empty soft clause is paid at once. */
  lemma EmptyAdded(w: World, x: nat)
    requires Inv(w) && w.cut.None?
    ensures var w' := w.(f := w.f.(cost := w.f.cost + x)); Inv(w'.(p := w'.p.(soft := w'.p.soft + [SoftClause([], x)])))
  {
    var w' := w.(f := w.f.(cost := w.f.cost + x));
    CostBase(w, w');
    BaseWf(w);
    hide Base, Identity;
    forall e: Assignment
      ensures Value(w'.f, Some(e), w'.s.nVars) == Value(w.f, Some(e), w.s.nVars) + if SatClause(e, []) then 0 else x
    {
      SumIgnores(w.f, w'.f, Some(e), w.s.nVars);
    }
    SoftAdded(w, w', [], x);
  }
}
