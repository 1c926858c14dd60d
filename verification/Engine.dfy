/**
 The state of the MaxSAT engine as a value, what every step keeps of it, and
 what the steps do to the objective.
 */
module Engine {
  import opened Cnf
  import opened Definitions
  import opened Totalizer
  import opened Objective

  // ----- the input problem -----

  datatype SoftClause = SoftClause(clause: Clause, w: nat)
  datatype Problem = Problem(hard: set<Clause>, soft: seq<SoftClause>)

  /** The original cost of an assignment: the weights of the soft clauses it falsifies. */
  function CostOf(soft: seq<SoftClause>, e: Assignment): (r: nat) {
    if soft == [] then 0
    else (if SatClause(e, soft[0].clause) then 0 else soft[0].w) + CostOf(soft[1..], e)
  }

  ghost predicate OverInputs(p: Problem, inputs: set<nat>) {
    && (forall c, l | c in p.hard && l in c :: l.v in inputs)
    && (forall i, l | 0 <= i < |p.soft| && l in p.soft[i].clause :: l.v in inputs)
  }

  lemma {:induction false} CostAgree(p: Problem, m: Assignment, e: Assignment, inputs: set<nat>)
    requires OverInputs(p, inputs) && Agree(m, e, inputs)
    ensures CostOf(p.soft, m) == CostOf(p.soft, e)
    ensures Sat(m, p.hard) <==> Sat(e, p.hard)
    decreases |p.soft|
  {
    forall c | c in p.hard ensures SatClause(m, c) <==> SatClause(e, c) {
      AgreeClause(m, e, c);
    }
    if p.soft != [] {
      AgreeClause(m, e, p.soft[0].clause);
      CostAgree(p.(soft := p.soft[1..]), m, e, inputs);
    }
  }

  lemma {:induction false} CostConcat(a: seq<SoftClause>, b: seq<SoftClause>, e: Assignment)
    ensures CostOf(a + b, e) == CostOf(a, e) + CostOf(b, e)
  {
    if a == [] {
      assert a + b == b;
    } else {
      assert (a + b)[1..] == a[1..] + b;
      CostConcat(a[1..], b, e);
    }
  }

  // ----- the state -----

  type Index = map<nat, set<Lit>>

  datatype World = World(
    s: Store,               // solver, auxiliary variables and lazy counters
    f: Formula,             // weights, lower bound, pending cores
    cards: seq<Tree>,       // the counters
    asked: seq<nat>,        // outputs below this were asked for, those from it on were not
    p: Problem,
    index: Index,           // `_mapWeight2Assum`
    cut: Option<nat>)       // the bound that literals were hardened against, None before any hardening

  /** A literal is filed under its weight exactly when that weight is positive. */
  ghost predicate IndexOk(index: Index, poids: map<nat, int>) {
    && (forall w: nat, l: Lit | Filed(index, w, l) :: w > 0 && WeightOf(poids, l) == w)
    && (forall l: Lit | WeightOf(poids, l) > 0 :: Filed(index, WeightOf(poids, l), l))
  }

  predicate Filed(index: Index, w: nat, l: Lit) {
    w in index && l in index[w]
  }

  ghost predicate CardOk(s: Store, t: Tree, c: nat, asked: nat, leaves: seq<Lit>) {
    TreeOk(t, s.meaning) && Rooted(t, s.tops, c) && Unasked(s, t, asked) && Leaves(t) == leaves && 1 <= asked && Consistent(leaves)
  }

  ghost predicate CardsOk(w: World) {
    && |w.cards| == |w.asked| == |w.f.leaves|
    && forall c | 0 <= c < |w.cards| :: CardOk(w.s, w.cards[c], c, w.asked[c], w.f.leaves[c])
  }

  /** Output v of a counter: within range, of negative polarity, and meaning "at most k". */
  ghost predicate CounterOk(s: Store, f: Formula, v: nat)
    requires v in f.a2c
  {
    var c := f.a2c[v];
    && 1 <= v <= s.nVars && v in s.defs && c.card < |f.leaves| && c.w0 > 0
    && WeightOf(f.poids, Lit(v, true)) <= 0
    && Soft(Lit(v, false), s.defs, s.inputs)
    && LitAtMost(Lit(v, false), f.leaves[c.card], c.k, s.defs, s.clauses)
  }

  ghost predicate PendingOk(s: Store, p: Pending) {
    p.lits != [] && p.w > 0 && Consistent(p.lits) && forall l | l in p.lits :: l.v <= s.nVars && Soft(Neg(l), s.defs, s.inputs)
  }

  ghost predicate WeightsOk(s: Store, f: Formula) {
    forall v | v in f.poids && f.poids[v] != 0 :: 1 <= v <= s.nVars && Soft(SoftLit(f, v), s.defs, s.inputs)
  }

  /** The next output of the counter of a live variable is the first that was not asked for. */
  ghost predicate Frontier(f: Formula, asked: seq<nat>) {
    && (forall v | v in f.a2c && Live(f, v) :: f.a2c[v].card < |asked| && asked[f.a2c[v].card] == f.a2c[v].k + 1)
    && (forall u, v | u in f.a2c && v in f.a2c && Live(f, u) && Live(f, v) && u != v ::
          f.a2c[u].card != f.a2c[v].card)
  }

  ghost predicate Shape(w: World) {
    && WeightsOk(w.s, w.f)
    && (forall v | v in w.f.a2c :: CounterOk(w.s, w.f, v))
    && (forall v | v in w.f.relaxing :: v in w.f.a2c && v in w.f.poids && w.f.poids[v] == 0)
    && Frontier(w.f, w.asked)
    && (forall i | 0 <= i < |w.f.pending| :: PendingOk(w.s, w.f.pending[i]))
  }

  ghost predicate Forces(s: Store) {
    forall m: Assignment | Sat(m, s.clauses) :: OneWay(m, s.defs)
  }

  /** The canonical extension of the inputs of a model is a model. */
  ghost predicate Lift(s: Store) {
    forall m: Assignment, e: Assignment |
      Sat(m, s.clauses) && Respects(e, s.defs) && Agree(m, e, s.inputs) :: Sat(e, s.clauses)
  }

  predicate Cheaper(p: Problem, cut: Option<nat>, e: Assignment) {
    cut.Some? ==> CostOf(p.soft, e) < cut.value
  }

  /** Whoever is cheaper than the cut-off is still a model. */
  ghost predicate Survive(s: Store, p: Problem, cut: Option<nat>) {
    forall e: Assignment | Respects(e, s.defs) && Sat(e, p.hard) && Cheaper(p, cut, e) :: Sat(e, s.clauses)
  }

  /** Everything but the objective. */
  ghost predicate Base(w: World) {
    && Ok(w.s) && ForcedBelow(w.s, |w.s.arena|)
    && CardsOk(w) && Shape(w) && WfCards(w.f) && IndexOk(w.index, w.f.poids)
    && OverInputs(w.p, w.s.inputs)
    && Forces(w.s) && Lift(w.s) && Survive(w.s, w.p, w.cut)
  }

  /** On canonical models the carried objective is the original cost. */
  ghost predicate Identity(w: World)
    requires WfCards(w.f)
  {
    forall e: Assignment | Respects(e, w.s.defs) && Sat(e, w.s.clauses) ::
      CostOf(w.p.soft, e) == Value(w.f, Some(e), w.s.nVars)
  }

  lemma BaseWf(w: World)
    requires Base(w)
    ensures WfCards(w.f)
  {
  }

  lemma ShapeWf(w: World)
    requires Shape(w)
    ensures WfCards(w.f)
  {
    forall v | v in w.f.a2c ensures w.f.a2c[v].card < |w.f.leaves| {
      assert CounterOk(w.s, w.f, v);
    }
  }

  ghost predicate Inv(w: World) {
    Base(w) && w.p.hard <= w.s.clauses && Identity(w)
  }

  // ----- growing the store -----

  /** Clauses and definitions were added that every canonical extension satisfies. */
  ghost predicate StoreStep(s: Store, s': Store) {
    && Ok(s') && ForcedBelow(s', |s'.arena|)
    && s'.inputs == s.inputs && s'.nVars >= s.nVars
    && Extends(s.defs, s'.defs) && (forall v | v in s'.defs && v !in s.defs :: v > s.nVars)
    && Definitional(s.clauses, s'.clauses, s'.defs)
    && NewForced(s.defs, s'.defs, s'.clauses)
  }

  lemma StoreStepTransitive(s: Store, s1: Store, s2: Store)
    requires StoreStep(s, s1) && StoreStep(s1, s2)
    ensures StoreStep(s, s2)
  {
    hide Ok, ForcedBelow;
    forall e: Assignment | Respects(e, s2.defs) ensures Respects(e, s1.defs) {
      RespectsSubset(e, s1.defs, s2.defs);
    }
    assert forall m: Assignment | Sat(m, s2.clauses) :: Sat(m, s1.clauses);
  }

  /** The semantic half of the invariant survives any definitional growth. */
  lemma StoreStepKeeps(s: Store, s': Store, p: Problem, cut: Option<nat>)
    requires StoreStep(s, s') && Forces(s) && Lift(s) && Survive(s, p, cut)
    ensures Forces(s') && Lift(s') && Survive(s', p, cut)
    ensures forall e: Assignment | Respects(e, s'.defs) :: Respects(e, s.defs) && (Sat(e, s.clauses) ==> Sat(e, s'.clauses))
    ensures forall m: Assignment | Sat(m, s'.clauses) :: Sat(m, s.clauses)
  {
    hide Ok, ForcedBelow;
    forall e: Assignment | Respects(e, s'.defs)
      ensures Respects(e, s.defs) && (Sat(e, s.clauses) ==> Sat(e, s'.clauses))
    {
      RespectsSubset(e, s.defs, s'.defs);
    }
    forall m: Assignment | Sat(m, s'.clauses) ensures Sat(m, s.clauses) && OneWay(m, s'.defs) {
      forall v | v in s'.defs ensures OneWayAt(m, v, s'.defs[v]) {
        if v in s.defs {
          assert OneWay(m, s.defs);
        }
      }
    }
  }

  lemma SoftStable(l: Lit, s: Store, s': Store)
    requires Extends(s.defs, s'.defs) && s'.inputs == s.inputs && l.v <= s.nVars
    requires forall v | v in s'.defs && v !in s.defs :: v > s.nVars
    requires Soft(l, s.defs, s.inputs)
    ensures Soft(l, s'.defs, s'.inputs)
  {
  }

  lemma LitAtMostStable(lit: Lit, leaves: seq<Lit>, k: nat, s: Store, s': Store)
    requires LitAtMost(lit, leaves, k, s.defs, s.clauses)
    requires Extends(s.defs, s'.defs) && s.clauses <= s'.clauses
    ensures LitAtMost(lit, leaves, k, s'.defs, s'.clauses)
  {
    forall e: Assignment | Respects(e, s'.defs) ensures Respects(e, s.defs) {
      RespectsSubset(e, s.defs, s'.defs);
    }
    assert forall m: Assignment | Sat(m, s'.clauses) :: Sat(m, s.clauses);
  }

  ghost predicate Grown(s: Store, s': Store) {
    && s'.inputs == s.inputs && s'.nVars >= s.nVars && s.clauses <= s'.clauses
    && Extends(s.defs, s'.defs) && (forall v | v in s'.defs && v !in s.defs :: v > s.nVars)
  }

  /** Weights, live counters and pending cores keep their shape when the store grows. */
  lemma ShapeStable(w: World, s': Store)
    requires Shape(w) && Grown(w.s, s')
    ensures Shape(w.(s := s'))
  {
    hide LitAtMost;
    forall v | v in w.f.a2c ensures CounterOk(s', w.f, v) {
      assert CounterOk(w.s, w.f, v);
      SoftStable(Lit(v, false), w.s, s');
      LitAtMostStable(Lit(v, false), w.f.leaves[w.f.a2c[v].card], w.f.a2c[v].k, w.s, s');
    }
    forall v | v in w.f.poids && w.f.poids[v] != 0
      ensures 1 <= v <= s'.nVars && Soft(SoftLit(w.f, v), s'.defs, s'.inputs)
    {
      SoftStable(SoftLit(w.f, v), w.s, s');
    }
    forall i | 0 <= i < |w.f.pending| ensures PendingOk(s', w.f.pending[i]) {
      assert PendingOk(w.s, w.f.pending[i]);
      forall l | l in w.f.pending[i].lits ensures Soft(Neg(l), s'.defs, s'.inputs) {
        SoftStable(Neg(l), w.s, s');
      }
    }
  }

  // ----- weights -----

  function Unfile(index: Index, w: nat, l: Lit): (r: Index) {
    index[w := (if w in index then index[w] else {}) - {l}]
  }

  function File(index: Index, w: nat, l: Lit): (r: Index) {
    index[w := (if w in index then index[w] else {}) + {l}]
  }

  /** Erase a literal from under its weight and file it under the new one, if that is positive. */
  function Refile(index: Index, l: Lit, w: nat, w': nat): (r: Index) {
    var erased := if w > 0 then Unfile(index, w, l) else index;
    if w' > 0 then File(erased, w', l) else erased
  }

  lemma UnfileOk(index: Index, poids: map<nat, int>, l: Lit)
    requires IndexOk(index, poids) && WeightOf(poids, l) >= 0
    ensures IndexOk(if WeightOf(poids, l) > 0 then Unfile(index, WeightOf(poids, l), l) else index, SetWeight(poids, l, 0))
  {
    var w := WeightOf(poids, l);
    var poids' := SetWeight(poids, l, 0);
    var index' := if w > 0 then Unfile(index, w, l) else index;
    forall u: nat, k: Lit | Filed(index', u, k) ensures u > 0 && WeightOf(poids', k) == u {
      assert Filed(index, u, k) && WeightOf(poids, k) == u > 0;
      assert k != l && k != Neg(l);
    }
    forall k: Lit | WeightOf(poids', k) > 0 ensures Filed(index', WeightOf(poids', k), k) {
      assert k.v != l.v;
      assert Filed(index, WeightOf(poids, k), k);
    }
  }

  lemma FileOk(index: Index, poids: map<nat, int>, l: Lit, x: nat)
    requires IndexOk(index, poids) && WeightOf(poids, l) == 0 && x > 0
    ensures IndexOk(File(index, x, l), SetWeight(poids, l, x))
  {
    var poids' := SetWeight(poids, l, x);
    var index' := File(index, x, l);
    forall u: nat, k: Lit | Filed(index', u, k) ensures u > 0 && WeightOf(poids', k) == u {
      if k == l && u == x {
      } else {
        assert Filed(index, u, k) && WeightOf(poids, k) == u > 0;
        assert k != l && k != Neg(l);
      }
    }
    forall k: Lit | WeightOf(poids', k) > 0 ensures Filed(index', WeightOf(poids', k), k) {
      if k != l {
        assert k != Neg(l);
        assert Filed(index, WeightOf(poids, k), k);
      }
    }
  }

  lemma RefileOk(index: Index, poids: map<nat, int>, l: Lit, x: nat)
    requires IndexOk(index, poids) && WeightOf(poids, l) >= 0
    ensures IndexOk(Refile(index, l, WeightOf(poids, l), x), SetWeight(poids, l, x))
  {
    UnfileOk(index, poids, l);
    var poids0 := SetWeight(poids, l, 0);
    assert SetWeight(poids0, l, x) == SetWeight(poids, l, x);
    if x > 0 {
      FileOk(if WeightOf(poids, l) > 0 then Unfile(index, WeightOf(poids, l), l) else index, poids0, l, x);
    }
  }

  /** Give literal `l` the weight `x`; with `relax`, a counter output that lost its weight waits. */
  function Reweighed(w: World, l: Lit, x: nat, relax: bool): (w': World)
    requires WeightOf(w.f.poids, l) >= 0
  {
    w.(f := w.f.(poids := SetWeight(w.f.poids, l, x), relaxing := w.f.relaxing + if relax then {l.v} else {}),
       index := Refile(w.index, l, WeightOf(w.f.poids, l), x))
  }

  lemma ReweighedShape(w: World, l: Lit, x: nat, relax: bool)
    requires Shape(w) && 1 <= l.v <= w.s.nVars && l.v !in w.f.relaxing
    requires WeightOf(w.f.poids, l) >= 0 && Soft(l, w.s.defs, w.s.inputs)
    requires l.v in w.f.a2c ==> !l.pos && x <= WeightOf(w.f.poids, l)
    requires relax ==> l.v in w.f.a2c && x == 0 && WeightOf(w.f.poids, l) > 0
    ensures Shape(Reweighed(w, l, x, relax))
  {
    hide LitAtMost;
    var w' := Reweighed(w, l, x, relax);
    forall v ensures v != l.v ==> WeightOf(w'.f.poids, Lit(v, true)) == WeightOf(w.f.poids, Lit(v, true)) {
    }
    forall v | v in w.f.a2c ensures CounterOk(w'.s, w'.f, v) && (Live(w'.f, v) ==> Live(w.f, v)) {
      assert CounterOk(w.s, w.f, v);
    }
    forall v | v in w'.f.poids && w'.f.poids[v] != 0
      ensures 1 <= v <= w.s.nVars && Soft(SoftLit(w'.f, v), w.s.defs, w.s.inputs)
    {
      if v != l.v {
        assert v in w.f.poids && w.f.poids[v] != 0;
        assert SoftLit(w'.f, v) == SoftLit(w.f, v);
      } else {
        assert SoftLit(w'.f, v) == l;
      }
    }
  }

  lemma ReweighedBase(w: World, l: Lit, x: nat, relax: bool)
    requires Base(w) && 1 <= l.v <= w.s.nVars && l.v !in w.f.relaxing
    requires WeightOf(w.f.poids, l) >= 0 && Soft(l, w.s.defs, w.s.inputs)
    requires l.v in w.f.a2c ==> !l.pos && x <= WeightOf(w.f.poids, l)
    requires relax ==> l.v in w.f.a2c && x == 0 && WeightOf(w.f.poids, l) > 0
    ensures Base(Reweighed(w, l, x, relax))
  {
    hide Ok, ForcedBelow, Shape, IndexOk, Survive, Lift, Forces, OverInputs;
    ReweighedShape(w, l, x, relax);
    ShapeWf(Reweighed(w, l, x, relax));
    RefileOk(w.index, w.f.poids, l, x);
  }

  // ----- counters -----

  lemma CardStable(s: Store, s': Store, t: Tree, c: nat, asked: nat, leaves: seq<Lit>)
    requires CardOk(s, t, c, asked, leaves) && |s.meaning| == |s.arena| <= |s'.arena|
    requires s.meaning <= s'.meaning && TopsGrow(s.tops, s'.tops, |s.arena|)
    requires forall j | j in s.tops && s.tops[j] == c && j < |s.arena| :: s'.arena[j] == s.arena[j]
    ensures CardOk(s', t, c, asked, leaves)
  {
    TreeStable(t, s.meaning, s'.meaning);
    RootedStable(t, s, s', c);
    forall j | asked <= j < |Outs(t)|
      ensures Outs(t)[j] < |s'.arena| && s'.arena[Outs(t)[j]] == s.arena[Outs(t)[j]]
    {
      assert t.Node? && t.outs[j] in t.outs;
    }
  }

  /** Output k of a counter, asked for the first time, becomes soft with the weight of its core. */
  function WithOutput(w: World, s': Store, t': Tree, v: nat, c: LitCard): (w': World)
    requires c.card < |w.cards| && c.card < |w.asked|
  {
    w.(s := s', cards := w.cards[c.card := t'], asked := w.asked[c.card := c.k + 1],
       f := w.f.(poids := SetWeight(w.f.poids, Lit(v, false), c.w0), a2c := w.f.a2c[v := c]),
       index := Refile(w.index, Lit(v, false), 0, c.w0))
  }

  ghost predicate OutputReady(w: World, s': Store, t': Tree, v: nat, c: LitCard) {
    && Base(w) && StoreStep(w.s, s') && Asked(w.s, s', c.card)
    && c.card < |w.cards| && c.w0 > 0 && 1 <= c.k && w.asked[c.card] == c.k
    && CardOk(s', t', c.card, c.k + 1, w.f.leaves[c.card])
    && v == w.s.nVars + 1 && v <= s'.nVars && v in s'.defs && Soft(Lit(v, false), s'.defs, s'.inputs)
    && LitAtMost(Lit(v, false), w.f.leaves[c.card], c.k, s'.defs, s'.clauses)
    && forall u | u in w.f.a2c && Live(w.f, u) :: w.f.a2c[u].card != c.card
  }

  /** Nothing above the highest variable has a weight or a counter. */
  lemma NothingAbove(w: World, v: nat)
    requires Shape(w) && v > w.s.nVars
    ensures v !in w.f.a2c && v !in w.f.relaxing && WeightOf(w.f.poids, Lit(v, true)) == 0
  {
    assert v in w.f.a2c ==> CounterOk(w.s, w.f, v);
  }

  lemma WithOutputFrontier(w: World, s': Store, t': Tree, v: nat, c: LitCard)
    requires Shape(w) && v > w.s.nVars && c.card < |w.cards| && c.card < |w.asked|
    requires forall u | u in w.f.a2c && Live(w.f, u) :: w.f.a2c[u].card != c.card
    ensures Frontier(WithOutput(w, s', t', v, c).f, WithOutput(w, s', t', v, c).asked)
    ensures forall u | u != v :: WeightOf(WithOutput(w, s', t', v, c).f.poids, Lit(u, true)) == WeightOf(w.f.poids, Lit(u, true))
  {
    var w' := WithOutput(w, s', t', v, c);
    NothingAbove(w, v);
    forall u | u != v && u in w'.f.a2c ensures u in w.f.a2c && (Live(w'.f, u) <==> Live(w.f, u)) {
      assert WeightOf(w'.f.poids, Lit(u, true)) == WeightOf(w.f.poids, Lit(u, true));
    }
  }

  lemma WithOutputWeights(w: World, s': Store, t': Tree, v: nat, c: LitCard)
    requires WeightsOk(s', w.f) && 1 <= v <= s'.nVars && c.card < |w.cards| && c.card < |w.asked| && c.w0 > 0
    requires Soft(Lit(v, false), s'.defs, s'.inputs)
    ensures WeightsOk(s', WithOutput(w, s', t', v, c).f)
  {
    var w' := WithOutput(w, s', t', v, c);
    forall u | u in w'.f.poids && w'.f.poids[u] != 0
      ensures 1 <= u <= s'.nVars && Soft(SoftLit(w'.f, u), s'.defs, s'.inputs)
    {
      if u != v {
        assert SoftLit(w'.f, u) == SoftLit(w.f, u);
      } else {
        assert SoftLit(w'.f, u) == Lit(v, false);
      }
    }
  }

  lemma WithOutputShape(w: World, s': Store, t': Tree, v: nat, c: LitCard)
    requires Shape(w) && StoreStep(w.s, s') && v == w.s.nVars + 1 <= s'.nVars && v in s'.defs
    requires c.card < |w.cards| && |w.cards| == |w.asked| == |w.f.leaves| && c.w0 > 0
    requires Soft(Lit(v, false), s'.defs, s'.inputs)
    requires LitAtMost(Lit(v, false), w.f.leaves[c.card], c.k, s'.defs, s'.clauses)
    requires forall u | u in w.f.a2c && Live(w.f, u) :: w.f.a2c[u].card != c.card
    ensures Shape(WithOutput(w, s', t', v, c))
  {
    hide LitAtMost, Frontier, WeightsOk, Soft, Ok, ForcedBelow, NewForced;
    var w' := WithOutput(w, s', t', v, c);
    assert Grown(w.s, s');
    ShapeStable(w, s');
    NothingAbove(w, v);
    WithOutputFrontier(w, s', t', v, c);
    WithOutputWeights(w, s', t', v, c);
    WithOutputCounters(w, s', t', v, c);
  }

  lemma WithOutputCounters(w: World, s': Store, t': Tree, v: nat, c: LitCard)
    requires c.card < |w.cards| && |w.cards| == |w.asked| == |w.f.leaves| && c.w0 > 0
    requires forall u | u in w.f.a2c :: CounterOk(s', w.f, u)
    requires 1 <= v <= s'.nVars && v in s'.defs && Soft(Lit(v, false), s'.defs, s'.inputs)
    requires LitAtMost(Lit(v, false), w.f.leaves[c.card], c.k, s'.defs, s'.clauses)
    ensures forall u | u in WithOutput(w, s', t', v, c).f.a2c :: CounterOk(s', WithOutput(w, s', t', v, c).f, u)
  {
    hide LitAtMost, Soft;
    var w' := WithOutput(w, s', t', v, c);
    forall u | u in w'.f.a2c ensures CounterOk(s', w'.f, u) {
      if u != v {
        assert CounterOk(s', w.f, u);
      }
    }
  }

  lemma WithOutputBase(w: World, s': Store, t': Tree, v: nat, c: LitCard)
    requires OutputReady(w, s', t', v, c)
    ensures Base(WithOutput(w, s', t', v, c))
  {
    var w' := WithOutput(w, s', t', v, c);
    WithOutputShape(w, s', t', v, c);
    ShapeWf(w');
    StoreStepKeeps(w.s, s', w.p, w.cut);
    NothingAbove(w, v);
    RefileOk(w.index, w.f.poids, Lit(v, false), c.w0);
    OkSizes(w.s);
    hide Ok, ForcedBelow, LitAtMost, Shape, Survive, Lift, Forces, IndexOk, OverInputs, Definitional, NewForced, Extends;
    forall d | 0 <= d < |w'.cards| ensures CardOk(s', w'.cards[d], d, w'.asked[d], w'.f.leaves[d]) {
      if d != c.card {
        assert CardOk(w.s, w.cards[d], d, w.asked[d], w.f.leaves[d]);
        CardStable(w.s, s', w.cards[d], d, w.asked[d], w.f.leaves[d]);
      }
    }
  }

  ghost predicate ViewOk(view: View, defs: Defs) {
    view.Some? ==> Respects(view.value, defs)
  }

  /** The new output takes over what the counter pays from k on. */
  lemma WithOutputValue(w: World, s': Store, t': Tree, v: nat, c: LitCard, view: View)
    requires OutputReady(w, s', t', v, c) && ViewOk(view, s'.defs)
    requires view.None? ==> |w.f.leaves[c.card]| > c.k
    ensures WfCards(w.f) && WfCards(WithOutput(w, s', t', v, c).f)
    ensures VarSum(WithOutput(w, s', t', v, c).f, view, s'.nVars)
         == VarSum(w.f, view, w.s.nVars) + c.w0 * Excess(CountIn(view, w.f.leaves[c.card]), c.k)
  {
    hide Ok, ForcedBelow, Survive, Lift, Forces, IndexOk, StoreStep, Asked, CardOk;
    forall u | u > w.s.nVars ensures u !in w.f.a2c && u !in w.f.relaxing && WeightOf(w.f.poids, Lit(u, true)) == 0 {
      NothingAbove(w, u);
    }
    SumGrow(w.f, view, w.s.nVars, s'.nVars);
    NewCounterOutput(w.f, v, c, view, s'.nVars);
  }

  /** A counter output that is not live can be forgotten. */
  lemma DropOutput(w: World, v: nat)
    requires Base(w) && v in w.f.a2c && !Live(w.f, v)
    ensures Base(w.(f := w.f.(a2c := w.f.a2c - {v})))
    ensures WfCards(w.f) && WfCards(w.f.(a2c := w.f.a2c - {v}))
    ensures forall view :: VarSum(w.f.(a2c := w.f.a2c - {v}), view, w.s.nVars) == VarSum(w.f, view, w.s.nVars)
  {
    hide Ok, ForcedBelow, LitAtMost, Survive, Lift, Forces, IndexOk, OverInputs, CardOk;
    var f' := w.f.(a2c := w.f.a2c - {v});
    assert CounterOk(w.s, w.f, v);
    forall u | u in f'.a2c ensures CounterOk(w.s, f', u) {
      assert CounterOk(w.s, w.f, u);
    }
    forall u | u in w.f.poids && w.f.poids[u] != 0 ensures Soft(SoftLit(f', u), w.s.defs, w.s.inputs) {
      assert SoftLit(f', u) == SoftLit(w.f, u);
    }
    forall view ensures VarSum(f', view, w.s.nVars) == VarSum(w.f, view, w.s.nVars) {
      SumAt(w.f, f', view, w.s.nVars, v);
    }
  }

  function WithCard(w: World, s': Store, t: Tree): (w': World) {
    w.(s := s', cards := w.cards + [t], asked := w.asked + [1], f := w.f.(leaves := w.f.leaves + [Leaves(t)]))
  }

  /** A counter just built joins the others. */
  lemma WithCardBase(w: World, s': Store, t: Tree)
    requires Base(w) && Grows(w.s, s') && Ok(s')
    requires CardOk(s', t, |w.cards|, 1, Leaves(t))
    ensures Base(WithCard(w, s', t))
  {
    var w' := WithCard(w, s', t);
    OkSizes(w.s);
    OkSizes(s');
    hide Ok, LitAtMost, Survive, Lift, Forces, IndexOk, OverInputs, CardOk, Shape, ForcedBelow;
    assert ForcedBelow(s', |s'.arena|);
    StoreClauses(w.s, s', w.p, w.cut);
    WithCardShape(w, s', t);
    ShapeWf(w');
    CardsPushed(w, s', t);
  }

  lemma WithCardShape(w: World, s': Store, t: Tree)
    requires Shape(w) && CardsOk(w) && Grows(w.s, s')
    ensures Shape(WithCard(w, s', t))
  {
    hide ForcedBelow, LitAtMost, Soft, CardOk;
    var w' := WithCard(w, s', t);
    forall v | v in w'.f.a2c ensures CounterOk(s', w'.f, v) {
      assert CounterOk(w.s, w.f, v);
    }
    forall u | u in w'.f.poids && w'.f.poids[u] != 0 ensures Soft(SoftLit(w'.f, u), s'.defs, s'.inputs) {
      assert SoftLit(w'.f, u) == SoftLit(w.f, u);
    }
    forall i | 0 <= i < |w.f.pending| ensures PendingOk(s', w.f.pending[i]) {
      assert PendingOk(w.s, w.f.pending[i]);
    }
  }

  lemma CardsPushed(w: World, s': Store, t: Tree)
    requires CardsOk(w) && Grows(w.s, s') && |w.s.meaning| == |w.s.arena|
    requires CardOk(s', t, |w.cards|, 1, Leaves(t))
    ensures CardsOk(WithCard(w, s', t))
  {
    hide TreeOk, Rooted, Unasked;
    var w' := WithCard(w, s', t);
    forall d | 0 <= d < |w'.cards| ensures CardOk(s', w'.cards[d], d, w'.asked[d], w'.f.leaves[d]) {
      if d < |w.cards| {
        assert CardOk(w.s, w.cards[d], d, w.asked[d], w.f.leaves[d]);
        CardStable(w.s, s', w.cards[d], d, w.asked[d], w.f.leaves[d]);
      }
    }
  }

  lemma WithCardValue(w: World, s': Store, t: Tree, view: View)
    requires WfCards(w.f) && s'.nVars == w.s.nVars
    ensures WfCards(WithCard(w, s', t).f)
    ensures VarSum(WithCard(w, s', t).f, view, s'.nVars) == VarSum(w.f, view, w.s.nVars)
  {
    var f' := WithCard(w, s', t).f;
    forall v | 1 <= v <= s'.nVars ensures VarTerm(f', view, v) == VarTerm(w.f, view, v) {
      assert SoftLit(f', v) == SoftLit(w.f, v);
    }
    SumSame(w.f, f', view, s'.nVars);
  }

  /** These depend on clauses, definitions and inputs only. */
  lemma StoreClauses(s: Store, s': Store, p: Problem, cut: Option<nat>)
    requires s'.clauses == s.clauses && s'.defs == s.defs && s'.inputs == s.inputs
    requires Forces(s) && Lift(s) && Survive(s, p, cut)
    ensures Forces(s') && Lift(s') && Survive(s', p, cut)
  {
  }

  // ----- adding clauses -----

  /** The clause may be added: canonical extensions of models and cheaper assignments satisfy it. */
  ghost predicate Admissible(s: Store, p: Problem, cut: Option<nat>, c: Clause) {
    && (forall m: Assignment, e: Assignment |
          Sat(m, s.clauses) && SatClause(m, c) && Respects(e, s.defs) && Agree(m, e, s.inputs) :: SatClause(e, c))
    && (forall e: Assignment |
          Respects(e, s.defs) && Sat(e, s.clauses) && Sat(e, p.hard) && Cheaper(p, cut, e) :: SatClause(e, c))
  }

  lemma AdmissibleStable(s: Store, s': Store, p: Problem, cut: Option<nat>, c: Clause)
    requires Admissible(s, p, cut, c) && StoreStep(s, s')
    ensures Admissible(s', p, cut, c)
  {
    hide Ok, ForcedBelow;
    forall e: Assignment | Respects(e, s'.defs) ensures Respects(e, s.defs) {
      RespectsSubset(e, s.defs, s'.defs);
    }
    assert forall m: Assignment | Sat(m, s'.clauses) :: Sat(m, s.clauses);
  }

  /** A clause the solver already implies. */
  lemma ImpliedAdmissible(s: Store, p: Problem, cut: Option<nat>, c: Clause)
    requires Lift(s) && Entails(s.clauses, c)
    ensures Admissible(s, p, cut, c)
  {
  }

  function WithClause(s: Store, c: Clause): (s': Store) {
    s.(clauses := s.clauses + {c})
  }

  lemma AddClauseBase(w: World, c: Clause)
    requires Base(w) && Admissible(w.s, w.p, w.cut, c)
    ensures Base(w.(s := WithClause(w.s, c)))
  {
    var s' := WithClause(w.s, c);
    forall m: Assignment | Sat(m, s'.clauses) ensures Sat(m, w.s.clauses) && SatClause(m, c) {
      assert c in s'.clauses;
    }
    assert forall m: Assignment :: Sat(m, w.s.clauses) && SatClause(m, c) ==> Sat(m, s'.clauses);
    assert Ok(s');
    assert ForcedBelow(s', |s'.arena|) by {
      hide Ok;
      forall i | 0 <= i < |s'.arena| ensures Forced(s'.arena[i], s'.meaning[i], s'.clauses) {
        assert Forced(w.s.arena[i], w.s.meaning[i], w.s.clauses);
      }
    }
    hide Ok, ForcedBelow;
    assert Grown(w.s, s');
    ShapeStable(w, s');
    assert CardsOk(w.(s := s')) by {
      forall d | 0 <= d < |w.cards| ensures CardOk(s', w.cards[d], d, w.asked[d], w.f.leaves[d]) {
        assert CardOk(w.s, w.cards[d], d, w.asked[d], w.f.leaves[d]);
      }
    }
  }

  // ----- disjunction variables -----

  function WithDisjunction(s: Store, lits: seq<Lit>): (s': Store) {
    var v := s.nVars + 1;
    s.(nVars := v, defs := s.defs[v := AnyOf(lits)], clauses := s.clauses + {lits + [Lit(v, false)]})
  }

  lemma DisjunctionOk(s: Store, lits: seq<Lit>)
    requires Ok(s) && forall l | l in lits :: l.v <= s.nVars && Soft(l, s.defs, s.inputs)
    ensures Ok(WithDisjunction(s, lits))
  {
    var s' := WithDisjunction(s, lits);
    forall e: Assignment | Respects(e, s'.defs) ensures Respects(e, s.defs) {
      RespectsSubset(e, s.defs, s'.defs);
    }
    forall l: Lit | Soft(l, s.defs, s.inputs) ensures Soft(l, s'.defs, s'.inputs) {
    }
    forall v | v in s'.defs ensures WfDef(v, s'.defs[v], s'.defs, s'.inputs) {
      if v != s'.nVars {
        assert WfDef(v, s.defs[v], s.defs, s.inputs);
      }
    }
    forall i | 0 <= i < |s.arena|
      ensures OutExact(s'.arena[i], s'.meaning[i], s'.defs)
      ensures LitsOk(s'.meaning[i], s'.nVars, s'.defs, s'.inputs)
    {
      assert OutExact(s.arena[i], s.meaning[i], s.defs);
      assert LitsOk(s.meaning[i], s.nVars, s.defs, s.inputs);
    }
  }

  lemma DisjunctionClause(m: Assignment, lits: seq<Lit>, v: nat)
    ensures SatClause(m, lits + [Lit(v, false)]) <==> (v in m ==> Holds(m, AnyOf(lits)))
  {
    CountPositive(m, lits);
    var c := lits + [Lit(v, false)];
    assert c[|lits|] == Lit(v, false) && forall i | 0 <= i < |lits| :: c[i] == lits[i];
    assert forall l :: l in c <==> l in lits || l == Lit(v, false);
    assert True(m, Lit(v, false)) <==> v !in m;
  }

  /** The clause "one of these or not v" ties v to the disjunction in one direction, the canonical extension in both. */
  lemma DisjunctionStep(s: Store, lits: seq<Lit>)
    requires Ok(s) && ForcedBelow(s, |s.arena|)
    requires forall l | l in lits :: l.v <= s.nVars && Soft(l, s.defs, s.inputs)
    ensures StoreStep(s, WithDisjunction(s, lits))
  {
    var s' := WithDisjunction(s, lits);
    var v := s.nVars + 1;
    var c := lits + [Lit(v, false)];
    DisjunctionOk(s, lits);
    forall m: Assignment ensures SatClause(m, c) <==> (v in m ==> Holds(m, AnyOf(lits))) {
      DisjunctionClause(m, lits, v);
    }
    assert forall m: Assignment | Sat(m, s'.clauses) :: Sat(m, s.clauses) && SatClause(m, c);
    hide Ok;
    forall i | 0 <= i < |s.arena| ensures Forced(s'.arena[i], s'.meaning[i], s'.clauses) {
      assert Forced(s.arena[i], s.meaning[i], s.clauses);
    }
  }

  // ----- relaxing a counter output -----

  /** The state seen as if literal `l` had no weight. */
  function Zeroed(w: World, l: Lit): (w': World) {
    w.(f := w.f.(poids := SetWeight(w.f.poids, l, 0)))
  }

  /** What the objective lacks while the successor of output v is due. */
  function Debt(f: Formula, view: View, v: nat): (r: nat)
    requires WfCards(f)
  {
    if v in f.a2c then Tail(f, view, v) else 0
  }

  /** Output v is no longer soft and its successor was not asked for. */
  ghost predicate Due(w: World, v: nat) {
    v in w.f.a2c ==>
      && !Live(w.f, v)
      && w.f.a2c[v].card < |w.asked| && w.asked[w.f.a2c[v].card] == w.f.a2c[v].k + 1
      && forall u | u in w.f.a2c && Live(w.f, u) :: w.f.a2c[u].card != w.f.a2c[v].card
  }

  /** A live variable becomes due when it loses its weight. */
  lemma LiveDue(w: World, l: Lit, relaxing: set<nat>)
    requires Base(w) && (l.v in w.f.a2c ==> Live(w.f, l.v)) && l.v !in relaxing && relaxing <= w.f.relaxing
    ensures Due(Zeroed(w, l).(f := Zeroed(w, l).f.(relaxing := relaxing)), l.v)
  {
    hide Ok, ForcedBelow, LitAtMost, Survive, Lift, Forces, IndexOk, CardOk;
    var w' := Zeroed(w, l).(f := Zeroed(w, l).f.(relaxing := relaxing));
    forall u | u in w.f.a2c && u != l.v && Live(w'.f, u) ensures Live(w.f, u) {
      assert WeightOf(w'.f.poids, Lit(u, true)) == WeightOf(w.f.poids, Lit(u, true));
    }
  }

  /** The counter counts no further: nothing was owed. */
  lemma NothingOwed(w: World, v: nat, view: View)
    requires Base(w) && v in w.f.a2c && w.f.a2c[v].k + 1 >= |w.f.leaves[w.f.a2c[v].card]|
    ensures Debt(w.f, view, v) == 0
  {
    hide Ok, ForcedBelow, LitAtMost, Survive, Lift, Forces, IndexOk, CardOk, Shape;
    var c := w.f.a2c[v];
    assert CountIn(view, w.f.leaves[c.card]) <= |w.f.leaves[c.card]|;
  }

  /** The successor pays exactly what was owed. */
  lemma SuccessorReady(w: World, s': Store, t': Tree, v: nat)
    requires Base(w) && v in w.f.a2c && Due(w, v)
    requires Ok(s') && ForcedBelow(s', |s'.arena|) && Asked(w.s, s', w.f.a2c[v].card)
    requires TreeOk(t', s'.meaning) && Rooted(t', s'.tops, w.f.a2c[v].card)
    requires w.f.a2c[v].card < |w.f.leaves| && Leaves(t') == w.f.leaves[w.f.a2c[v].card]
    requires IsCounter(w.s.nVars + 1, s'.defs) && Unasked(s', t', w.f.a2c[v].k + 2)
    requires LitAtMost(Lit(w.s.nVars + 1, false), w.f.leaves[w.f.a2c[v].card], w.f.a2c[v].k + 1, s'.defs, s'.clauses)
    ensures var c := w.f.a2c[v]; OutputReady(w, s', t', w.s.nVars + 1, LitCard(c.card, c.k + 1, c.w0))
  {
    hide ForcedBelow, LitAtMost, Survive, Lift, Forces, IndexOk, TreeOk, Rooted, Unasked;
    assert CounterOk(w.s, w.f, v);
    assert CardOk(w.s, w.cards[w.f.a2c[v].card], w.f.a2c[v].card, w.asked[w.f.a2c[v].card], w.f.leaves[w.f.a2c[v].card]);
  }

  /** The objective regained what was owed for output v. */
  ghost predicate Relaxed(w: World, w': World, v: nat) {
    && Base(w) && Base(w') && StoreStep(w.s, w'.s)
    && forall view | ViewOk(view, w'.s.defs) ::
         VarSum(w'.f, view, w'.s.nVars) == VarSum(w.f, view, w.s.nVars) + Debt(w.f, view, v)
  }

  lemma StoreStepReflexive(s: Store)
    requires Ok(s) && ForcedBelow(s, |s.arena|)
    ensures StoreStep(s, s)
  {
  }

  lemma RelaxedNothing(w: World, v: nat)
    requires Base(w)
    requires v in w.f.a2c ==> w.f.a2c[v].k + 1 >= |w.f.leaves[w.f.a2c[v].card]|
    ensures Relaxed(w, w, v)
  {
    hide Ok, ForcedBelow;
    StoreStepReflexive(w.s);
    if v in w.f.a2c {
      forall view ensures Debt(w.f, view, v) == 0 {
        NothingOwed(w, v, view);
      }
    }
  }

  lemma RelaxedDrop(w: World, w': World, v: nat)
    requires Relaxed(w, w', v) && v in w'.f.a2c && !Live(w'.f, v)
    ensures Relaxed(w, w'.(f := w'.f.(a2c := w'.f.a2c - {v})), v)
  {
    hide Ok, ForcedBelow, Base, StoreStep, ViewOk;
    DropOutput(w', v);
  }

  lemma RelaxedSome(w: World, s': Store, t': Tree, v: nat)
    requires v in w.f.a2c && |w.f.leaves| > w.f.a2c[v].card && |w.f.leaves[w.f.a2c[v].card]| > w.f.a2c[v].k + 1
    requires var c := w.f.a2c[v]; OutputReady(w, s', t', w.s.nVars + 1, LitCard(c.card, c.k + 1, c.w0))
    ensures var c := w.f.a2c[v]; Relaxed(w, WithOutput(w, s', t', w.s.nVars + 1, LitCard(c.card, c.k + 1, c.w0)), v)
  {
    hide Ok, ForcedBelow, Shape, LitAtMost, Survive, Lift, Forces, IndexOk, Asked, CardOk, StoreStep;
    var c := w.f.a2c[v];
    var c' := LitCard(c.card, c.k + 1, c.w0);
    WithOutputBase(w, s', t', w.s.nVars + 1, c');
    forall view | ViewOk(view, s'.defs)
      ensures VarSum(WithOutput(w, s', t', w.s.nVars + 1, c').f, view, s'.nVars)
           == VarSum(w.f, view, w.s.nVars) + Debt(w.f, view, v)
    {
      WithOutputValue(w, s', t', w.s.nVars + 1, c', view);
    }
  }

  lemma RelaxFacts(w: World, v: nat)
    requires Base(w) && v in w.f.a2c && Due(w, v)
    ensures var c := w.f.a2c[v];
            && c.card < |w.cards| == |w.asked| == |w.f.leaves| && c.w0 > 0
            && Ok(w.s) && ForcedBelow(w.s, |w.s.arena|)
            && TreeOk(w.cards[c.card], w.s.meaning) && Rooted(w.cards[c.card], w.s.tops, c.card)
            && Unasked(w.s, w.cards[c.card], c.k + 1)
            && forall d | 0 <= d < |w.cards| :: Leaves(w.cards[d]) == w.f.leaves[d]
    ensures w.s.nVars + 1 !in w.f.a2c && v <= w.s.nVars && v !in w.f.relaxing
  {
    hide Ok, ForcedBelow, TreeOk, Rooted, Unasked;
    assert CounterOk(w.s, w.f, v);
    forall d | 0 <= d < |w.cards| ensures Leaves(w.cards[d]) == w.f.leaves[d] {
      assert CardOk(w.s, w.cards[d], d, w.asked[d], w.f.leaves[d]);
    }
    assert CardOk(w.s, w.cards[w.f.a2c[v].card], w.f.a2c[v].card, w.asked[w.f.a2c[v].card], w.f.leaves[w.f.a2c[v].card]);
    NothingAbove(w, w.s.nVars + 1);
  }

  /** `AskNext` with an output: the state it leaves, field by field. */
  lemma AskedNext(w: World, w': World, t: Tree, lit: Lit, poids: map<nat, int>)
    requires Base(w) && lit.v in w.f.a2c && Due(w, lit.v) && w.f.poids == SetWeight(poids, lit, 0)
    requires Ok(w'.s) && ForcedBelow(w'.s, |w'.s.arena|) && Asked(w.s, w'.s, w.f.a2c[lit.v].card)
    requires TreeOk(t, w'.s.meaning) && Rooted(t, w'.s.tops, w.f.a2c[lit.v].card)
    requires w.f.a2c[lit.v].card < |w.f.leaves| == |w.cards| == |w.asked|
    requires Leaves(t) == w.f.leaves[w.f.a2c[lit.v].card] && |Leaves(t)| > w.f.a2c[lit.v].k + 1
    requires IsCounter(w.s.nVars + 1, w'.s.defs) && Unasked(w'.s, t, w.f.a2c[lit.v].k + 2)
    requires LitAtMost(Lit(w.s.nVars + 1, false), Leaves(t), w.f.a2c[lit.v].k + 1, w'.s.defs, w'.s.clauses)
    requires var c, l := w.f.a2c[lit.v], Lit(w.s.nVars + 1, false);
             w' == World(w'.s, w.f.(poids := SetWeight(SetWeight(poids, l, c.w0), lit, 0),
                                    a2c := w.f.a2c[l.v := LitCard(c.card, c.k + 1, c.w0)]),
                         w.cards[c.card := t], w.asked[c.card := c.k + 2], w.p, File(w.index, c.w0, l), w.cut)
    ensures Relaxed(w, w', lit.v)
  {
    hide Base, Due, Ok, ForcedBelow, TreeOk, Rooted, Unasked, LitAtMost, Asked, Relaxed;
    var c := w.f.a2c[lit.v];
    var l := Lit(w.s.nVars + 1, false);
    SuccessorReady(w, w'.s, t, lit.v);
    RelaxedSome(w, w'.s, t, lit.v);
    RelaxFacts(w, lit.v);
    assert w'.f.poids == SetWeight(w.f.poids, l, c.w0);
    assert w' == WithOutput(w, w'.s, t, l.v, LitCard(c.card, c.k + 1, c.w0));
  }
}
