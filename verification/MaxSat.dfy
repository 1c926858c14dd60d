/**
 The core-guided engine of EvalMaxSAT: `relax`, `harden`, core handling,
 at-most-one contraction and `solve`.
 */
module MaxSat {
  import opened Cnf
  import opened Definitions
  import opened Solver
  import opened Totalizer
  import opened Objective
  import opened Engine
  import opened Steps
  import opened Optimality
  import opened Conflicts
  import opened Cores
  import opened LocalOptimizer
  import opened Input
  import Clique

  function LeavesOf(cards: seq<Tree>): (r: seq<seq<Lit>>)
    ensures |r| == |cards| && forall c | 0 <= c < |cards| :: r[c] == Leaves(cards[c])
  {
    seq(|cards|, c requires 0 <= c < |cards| => Leaves(cards[c]))
  }

  function VarsOf(lits: seq<Lit>): (r: set<nat>) {
    set l | l in lits :: l.v
  }

  ghost predicate FreshWeight(poids: map<nat, int>, poids': map<nat, int>, l: Lit, nVars: nat) {
    l.v > nVars && exists w: nat :: w > 0 && poids' == SetWeight(poids, l, w)
  }

  lemma UntouchedFresh(p: map<nat, int>, p': map<nat, int>, l: Lit, n: nat, lits: seq<Lit>)
    requires p' == p || FreshWeight(p, p', l, n)
    ensures Untouched(p, p', n, lits)
  {
  }

  lemma AllButOnePositive(d: nat, n: nat)
    requires d > 0 && n > 1
    ensures AllButOne(d, n) > 0
  {
  }

  lemma FalsifyFrame(p: map<nat, int>, p': map<nat, int>, lit: Lit, newLit: Option<Lit>, n: nat)
    requires newLit.None? ==> p' == p
    requires newLit.Some? ==> FreshWeight(p, p', newLit.value, n)
    ensures Untouched(p, SetWeight(p', lit, 0), n, [lit])
  {
    UntouchedFresh(p, p', if newLit.Some? then newLit.value else lit, n, [lit]);
    UntouchedSet(p', lit, 0, n, [lit]);
    UntouchedTransitive(p, p', SetWeight(p', lit, 0), n, n, [lit], [lit]);
  }

  lemma NegWeight(poids: map<nat, int>, l: Lit)
    ensures WeightOf(poids, Neg(l)) == -WeightOf(poids, l)
  {
  }

  lemma FreshWeightOf(poids: map<nat, int>, l: Lit, w: nat, nVars: nat)
    requires l.v > nVars && w > 0
    ensures FreshWeight(poids, SetWeight(poids, l, w), l, nVars)
  {
  }

  ghost predicate Least(poids: map<nat, int>, lits: seq<Lit>, d: int) {
    (forall l | l in lits :: d <= WeightOf(poids, l)) && exists l | l in lits :: WeightOf(poids, l) == d
  }

  /** The smallest weight in a non-empty list. */
  method MinWeight(poids: map<nat, int>, lits: seq<Lit>) returns (d: int)
    requires lits != []
    ensures Least(poids, lits, d)
  {
    d := WeightOf(poids, lits[0]);
    for i := 1 to |lits|
      invariant forall k | 0 <= k < i :: d <= WeightOf(poids, lits[k])
      invariant exists k | 0 <= k < i :: WeightOf(poids, lits[k]) == d
    {
      if d > WeightOf(poids, lits[i]) {
        d := WeightOf(poids, lits[i]);
      }
    }
  }

  /** Overwriting position i by the last element and dropping the last. */
  lemma SwapRemove(s: seq<Lit>, i: nat, r: seq<Lit>)
    requires i < |s| && Distinct(s) && r == s[i := s[|s| - 1]][..|s| - 1]
    ensures Distinct(r) && multiset(r[i..]) == multiset(s[i + 1..])
    ensures forall k | 0 <= k < |r| :: r[k] == if k == i then s[|s| - 1] else s[k]
  {
    assert forall k | 0 <= k < |r| :: r[k] == if k == i then s[|s| - 1] else s[k];
    SwapRemoveRest(s, i, r);
  }

  lemma SwapRemoveRest(s: seq<Lit>, i: nat, r: seq<Lit>)
    requires i < |s| && |r| == |s| - 1
    requires forall k | 0 <= k < |r| :: r[k] == if k == i then s[|s| - 1] else s[k]
    ensures multiset(r[i..]) == multiset(s[i + 1..])
  {
    var n := |s| - 1;
    if i < n {
      assert r[i..] == [s[n]] + s[i + 1..n];
      assert s[i + 1..] == s[i + 1..n] + [s[n]];
    } else {
      assert r[i..] == s[i + 1..];
    }
  }

  /** Positions below i are lowered and kept, positions from i on are untouched, `done` are all lowered ones. */
  ghost predicate Progress(save: seq<Lit>, clause: seq<Lit>, i: nat, done: seq<Lit>,
                           poids: map<nat, int>, poids0: map<nat, int>, least: Lit) {
    && i <= |clause| <= |save| && Distinct(clause)
    && multiset(done) + multiset(clause[i..]) == multiset(save)
    && (forall k | 0 <= k < |clause| :: clause[k] in save)
    && (forall k | 0 <= k < i :: WeightOf(poids, clause[k]) > 0)
    && (forall k | i <= k < |clause| :: WeightOf(poids, clause[k]) == WeightOf(poids0, clause[k]))
    && (least in done ==> |clause| < |save|)
  }

  ghost predicate OnlyLowered(poids: map<nat, int>, poids': map<nat, int>, lit: Lit, d: nat, n: nat) {
    && WeightOf(poids', lit) == WeightOf(poids, lit) - d
    && forall k: Lit | k.v != lit.v && k.v <= n :: WeightOf(poids', k) == WeightOf(poids, k)
  }

  lemma NonNegativeStart(poids: map<nat, int>, save: seq<Lit>)
    requires forall l | l in save :: WeightOf(poids, l) >= 0
    ensures NonNegative(poids, save)
  {
  }

  lemma NonNegativeLowered(save: seq<Lit>, poids: map<nat, int>, poids': map<nat, int>, lit: Lit, d: nat, n: nat)
    requires NonNegative(poids, save) && OnlyLowered(poids, poids', lit, d, n) && d <= WeightOf(poids, lit) && lit in save
    requires forall l | l in save :: l.v <= n
    requires forall k, l | k in save && l in save && k != l :: k.v != l.v
    ensures NonNegative(poids', save)
  {
  }

  lemma ProgressStart(save: seq<Lit>, poids: map<nat, int>, least: Lit)
    requires Distinct(save)
    ensures Progress(save, save, 0, [], poids, poids, least)
  {
    assert save[0..] == save;
  }

  lemma ProgressNext(save: seq<Lit>, clause: seq<Lit>, i: nat, done: seq<Lit>,
                     poids: map<nat, int>, poids0: map<nat, int>, least: Lit)
    requires Progress(save, clause, i, done, poids, poids0, least) && i < |clause|
    ensures clause[i] in save && WeightOf(poids, clause[i]) == WeightOf(poids0, clause[i])
  {
  }

  lemma ProgressKeep(save: seq<Lit>, clause: seq<Lit>, i: nat, done: seq<Lit>, poids: map<nat, int>,
                     poids': map<nat, int>, poids0: map<nat, int>, least: Lit, d: nat, n: nat)
    requires Progress(save, clause, i, done, poids, poids0, least) && i < |clause|
    requires OnlyLowered(poids, poids', clause[i], d, n)
    requires forall l | l in save :: l.v <= n
    requires forall k, l | k in save && l in save && k != l :: k.v != l.v
    requires WeightOf(poids', clause[i]) > 0 && WeightOf(poids0, least) == d
    ensures Progress(save, clause, i + 1, done + [clause[i]], poids', poids0, least)
  {
    assert clause[i..] == [clause[i]] + clause[i + 1..];
  }

  lemma ProgressDrop(save: seq<Lit>, clause: seq<Lit>, clause': seq<Lit>, i: nat, done: seq<Lit>, poids: map<nat, int>,
                     poids': map<nat, int>, poids0: map<nat, int>, least: Lit, d: nat, n: nat)
    requires Progress(save, clause, i, done, poids, poids0, least) && i < |clause|
    requires clause' == clause[i := clause[|clause| - 1]][..|clause| - 1]
    requires OnlyLowered(poids, poids', clause[i], d, n)
    requires forall l | l in save :: l.v <= n
    requires forall k, l | k in save && l in save && k != l :: k.v != l.v
    ensures Progress(save, clause', i, done + [clause[i]], poids', poids0, least)
  {
    assert clause[i..] == [clause[i]] + clause[i + 1..];
    SwapRemove(clause, i, clause');
    forall k | 0 <= k < |clause'| ensures clause'[k] in save && clause'[k].v != clause[i].v {
      assert clause'[k] == if k == i then clause[|clause| - 1] else clause[k];
    }
  }

  lemma ProgressEnd(save: seq<Lit>, clause: seq<Lit>, i: nat, done: seq<Lit>,
                    poids: map<nat, int>, poids0: map<nat, int>, least: Lit)
    requires Progress(save, clause, i, done, poids, poids0, least) && i == |clause| && least in save
    ensures multiset(done) == multiset(save) && |clause| < |save| && Distinct(clause)
    ensures forall l | l in clause :: l in save && WeightOf(poids, l) > 0
  {
    assert clause[i..] == [];
    assert least in multiset(save);
  }

  lemma ContractStart(w: World, lits: seq<Lit>)
    requires forall l | l in lits :: WeightOf(w.f.poids, l) > 0
    ensures Outcome(w.f.poids, w.s.nVars, w.s.nVars, [], []) && NonNegative(w.f.poids, lits)
    ensures Untouched(w.f.poids, w.f.poids, w.s.nVars, lits)
  {
  }

  /** The literal left over joins the new ones. */
  lemma ContractEnd(w0: World, w: World, lits: seq<Lit>, clause: seq<Lit>, r: seq<Lit>)
    requires Outcome(w.f.poids, w0.s.nVars, w.s.nVars, [], r) && |clause| <= 1 && w.s.nVars >= w0.s.nVars
    requires forall l | l in clause :: l in lits && l.v <= w0.s.nVars && WeightOf(w.f.poids, l) > 0
    ensures Outcome(w.f.poids, w0.s.nVars, w.s.nVars, lits, r + clause)
  {
    forall i, j | 0 <= i < j < |r + clause| ensures (r + clause)[i] != (r + clause)[j] {
      assert r[i] in r;
    }
  }

  /** Every literal of the core lost d, and nothing else changed. */
  ghost predicate CoreLowered(poids: map<nat, int>, poids': map<nat, int>, core: seq<Lit>, d: nat) {
    && (forall l | l in core :: WeightOf(poids', l) == WeightOf(poids, l) - d)
    && forall k: Lit | Foreign(core, k.v) :: WeightOf(poids', k) == WeightOf(poids, k)
  }

  ghost predicate Foreign(core: seq<Lit>, v: nat) {
    forall l | l in core :: l.v != v
  }

  lemma CoreLoweredNone(poids: map<nat, int>, d: nat)
    ensures CoreLowered(poids, poids, [], d)
  {
  }

  /** What was not lowered yet has its weight. */
  lemma CoreLoweredAt(p: map<nat, int>, p1: map<nat, int>, core: seq<Lit>, i: nat, d: nat)
    requires i < |core| && VarsDistinct(core) && CoreLowered(p, p1, core[..i], d)
    ensures core[i] in core && WeightOf(p1, core[i]) == WeightOf(p, core[i])
  {
    assert Foreign(core[..i], core[i].v);
  }

  lemma CoreLoweredNext(p: map<nat, int>, p1: map<nat, int>, p2: map<nat, int>, core: seq<Lit>, i: nat, d: nat)
    requires i < |core| && VarsDistinct(core) && CoreLowered(p, p1, core[..i], d)
    requires p2 == SetWeight(p1, core[i], WeightOf(p1, core[i]) - d)
    ensures CoreLowered(p, p2, core[..i] + [core[i]], d)
  {
    CoreLoweredAt(p, p1, core, i, d);
    var part := core[..i] + [core[i]];
    assert Foreign(core[..i], core[i].v);
    forall k: Lit | Foreign(part, k.v) ensures WeightOf(p2, k) == WeightOf(p, k) {
      assert core[i] in part && forall l | l in core[..i] :: l in part;
      assert Foreign(core[..i], k.v);
    }
  }

  lemma CoreVars(w: World, core: seq<Lit>)
    requires Base(w) && Distinct(core) && forall l | l in core :: WeightOf(w.f.poids, l) > 0
    ensures VarsDistinct(core)
  {
    SoftVars(w, core);
  }

  // ----- queues and assumptions -----

  predicate VarsDistinct(queue: seq<Lit>) {
    forall i, j | 0 <= i < j < |queue| :: queue[i].v != queue[j].v
  }

  lemma PushVar(queue: seq<Lit>, l: Lit)
    requires VarsDistinct(queue) && l.v !in VarsOf(queue)
    ensures VarsDistinct(queue + [l]) && VarsOf(queue + [l]) == VarsOf(queue) + {l.v}
  {
    forall i | 0 <= i < |queue| ensures queue[i].v != l.v {
      assert queue[i] in queue;
    }
    forall v ensures v in VarsOf(queue + [l]) <==> v in VarsOf(queue) + {l.v} {
      assert forall k :: k in queue + [l] <==> k in queue || k == l;
    }
  }

  lemma PopVar(queue: seq<Lit>)
    requires VarsDistinct(queue) && queue != []
    ensures VarsDistinct(queue[1..]) && VarsOf(queue[1..]) == VarsOf(queue) - {queue[0].v} && queue[0].v in VarsOf(queue)
  {
    forall v ensures v in VarsOf(queue[1..]) <==> v in VarsOf(queue) - {queue[0].v} {
      if v in VarsOf(queue) && v != queue[0].v {
        var l :| l in queue && l.v == v;
        assert l in queue[1..];
      }
      if v in VarsOf(queue[1..]) {
        var l :| l in queue[1..] && l.v == v;
        var i :| 1 <= i < |queue| && queue[i] == l;
      }
    }
  }

  /** The assumptions of the stratum: every literal of at least the given weight. */
  ghost predicate AssumOk(assum: set<Lit>, poids: map<nat, int>, minWeight: nat) {
    forall l: Lit :: l in assum <==> WeightOf(poids, l) >= minWeight
  }

  lemma LowerAssum(assum: set<Lit>, poids: map<nat, int>, l: Lit, x: nat, minWeight: nat)
    requires AssumOk(assum, poids, minWeight) && minWeight > 0 && x <= WeightOf(poids, l)
    ensures AssumOk(if x < minWeight then assum - {l} else assum, SetWeight(poids, l, x), minWeight)
  {
    var poids' := SetWeight(poids, l, x);
    forall k: Lit ensures k in (if x < minWeight then assum - {l} else assum) <==> WeightOf(poids', k) >= minWeight {
      if k.v == l.v && k != l {
        assert k == Neg(l);
      }
    }
  }

  lemma FreshAssum(assum: set<Lit>, poids: map<nat, int>, poids': map<nat, int>, l: Lit, minWeight: nat)
    requires AssumOk(assum, poids, minWeight) && minWeight > 0 && WeightOf(poids, l) == 0
    requires exists w: nat :: w > 0 && poids' == SetWeight(poids, l, w)
    ensures AssumOk(if WeightOf(poids', l) >= minWeight then assum + {l} else assum, poids', minWeight)
  {
    forall k: Lit
      ensures k in (if WeightOf(poids', l) >= minWeight then assum + {l} else assum) <==> WeightOf(poids', k) >= minWeight
    {
      if k.v == l.v && k != l {
        assert k == Neg(l);
      }
    }
  }

  /** A literal that just got its first weight. */
  lemma FreshFacts(w: World, poids': map<nat, int>, l: Lit)
    requires Base(w) && FreshWeight(w.f.poids, poids', l, w.s.nVars)
    ensures l.v > w.s.nVars && WeightOf(w.f.poids, l) == 0
    ensures exists x: nat :: x > 0 && poids' == SetWeight(w.f.poids, l, x)
  {
    NothingAbove(w, l.v);
  }

  lemma NoCounterAbove(w: World, v: nat)
    requires Base(w) && v > w.s.nVars
    ensures v !in w.f.a2c
  {
    NothingAbove(w, v);
  }

  lemma ZeroedSame(w: World, l: Lit)
    requires l.v in w.f.poids && w.f.poids[l.v] == 0
    ensures Zeroed(w, l) == w
  {
    assert SetWeight(w.f.poids, l, 0) == w.f.poids;
  }

  /** No literal is soft together with its negation. */
  lemma WeightsConsistent(poids: map<nat, int>, lits: seq<Lit>)
    requires forall l | l in lits :: WeightOf(poids, l) > 0
    ensures Consistent(lits)
  {
    forall l: Lit ensures WeightOf(poids, Neg(l)) == -WeightOf(poids, l) {
      NegWeight(poids, l);
    }
  }

  lemma CounterReady(w: World)
    requires Base(w)
    ensures Ok(w.s) && ForcedBelow(w.s, |w.s.arena|) && |w.cards| == |w.f.leaves|
    ensures forall c | 0 <= c < |w.cards| :: Leaves(w.cards[c]) == w.f.leaves[c]
  {
    forall c | 0 <= c < |w.cards| ensures Leaves(w.cards[c]) == w.f.leaves[c] {
      assert CardOk(w.s, w.cards[c], c, w.asked[c], w.f.leaves[c]);
    }
  }

  lemma GrowsForced(s: Store, s': Store)
    requires Grows(s, s') && ForcedBelow(s, |s.arena|)
    ensures ForcedBelow(s', |s'.arena|)
  {
  }

  // ----- hardening -----

  /** If the assumptions were those of some stratum before, they are afterwards. */
  ghost predicate Tracks(assum: set<Lit>, poids: map<nat, int>, assum': set<Lit>, poids': map<nat, int>) {
    forall minWeight: nat | minWeight > 0 && AssumOk(assum, poids, minWeight) :: AssumOk(assum', poids', minWeight)
  }

  lemma TracksSame(assum: set<Lit>, poids: map<nat, int>)
    ensures Tracks(assum, poids, assum, poids)
  {
  }

  lemma TracksTransitive(a: set<Lit>, p: map<nat, int>, a1: set<Lit>, p1: map<nat, int>, a2: set<Lit>, p2: map<nat, int>)
    requires Tracks(a, p, a1, p1) && Tracks(a1, p1, a2, p2)
    ensures Tracks(a, p, a2, p2)
  {
  }

  lemma TracksHard(a: set<Lit>, p: map<nat, int>, a1: set<Lit>, p1: map<nat, int>, l: Lit)
    requires Tracks(a, p, a1, p1) && WeightOf(p1, l) > 0
    ensures Tracks(a, p, a1 - {l}, SetWeight(p1, l, 0))
  {
    forall minWeight: nat | minWeight > 0 && AssumOk(a, p, minWeight) ensures AssumOk(a1 - {l}, SetWeight(p1, l, 0), minWeight) {
      LowerAssum(a1, p1, l, 0, minWeight);
    }
  }

  lemma FiledWeight(w: World, x: nat, l: Lit)
    requires Base(w) && x in w.index && l in w.index[x]
    ensures WeightOf(w.f.poids, l) == x > 0
  {
    assert Filed(w.index, x, l);
  }

  /** Every positive weight is a key of the index. */
  lemma HeaviestFiled(w: World)
    requires Inv(w)
    ensures forall l: Lit | WeightOf(w.f.poids, l) > 0 :: WeightOf(w.f.poids, l) in w.index
  {
    forall l: Lit | WeightOf(w.f.poids, l) > 0 ensures WeightOf(w.f.poids, l) in w.index {
      assert Filed(w.index, WeightOf(w.f.poids, l), l);
    }
  }

  lemma InvBase(w: World)
    requires Inv(w)
    ensures Base(w)
  {
  }

  lemma OnlyKey(index: Index, x: nat)
    requires |index| == 1 && x in index
    ensures index.Keys == {x}
  {
    assert |index.Keys| == 1;
    assert index.Keys == {x} + (index.Keys - {x});
  }

  lemma EmptyIndex(w: World, x: nat)
    requires Base(w) && w.index.Keys == {x} && w.index[x] == {}
    ensures forall l: Lit :: WeightOf(w.f.poids, l) <= 0
  {
    assert forall y: nat, l: Lit :: !Filed(w.index, y, l);
  }

  lemma KeysSize(a: Index, b: Index)
    requires a.Keys == b.Keys
    ensures |a| == |b|
  {
    assert |a| == |a.Keys| && |b| == |b.Keys|;
  }

  /** A weight under which nothing is filed can leave the index. */
  lemma DropKey(w: World, x: nat)
    requires Inv(w) && x in w.index && w.index[x] == {}
    ensures var w' := w.(index := w.index - {x}); Inv(w') && Step(w, w') && |w'.index| == |w.index| - 1
  {
    var w' := w.(index := w.index - {x});
    assert IndexOk(w'.index, w.f.poids) by {
      forall u: nat, k: Lit | Filed(w'.index, u, k) ensures u > 0 && WeightOf(w.f.poids, k) == u {
        assert Filed(w.index, u, k);
      }
      forall k: Lit | WeightOf(w.f.poids, k) > 0 ensures Filed(w'.index, WeightOf(w.f.poids, k), k) {
        assert Filed(w.index, WeightOf(w.f.poids, k), k);
      }
    }
    assert w'.index.Keys == w.index.Keys - {x};
    assert |w'.index| == |w'.index.Keys| && |w.index| == |w.index.Keys|;
    hide Ok, ForcedBelow, IndexOk, Survive, Lift, Forces, OverInputs, CardOk, Frontier, WeightsOk, CounterOk, PendingOk;
    assert Base(w');
  }

  function MaxOf(s: set<nat>): (x: nat)
    requires s != {}
    ensures x in s && forall y | y in s :: y <= x
  {
    MaxExists(s);
    var x :| x in s && forall y | y in s :: y <= x;
    x
  }

  lemma MaxExists(s: set<nat>)
    requires s != {}
    ensures exists x :: x in s && forall y | y in s :: y <= x
  {
    var x :| x in s;
    if s != {x} {
      MaxExists(s - {x});
      var z :| z in s - {x} && forall y | y in s - {x} :: y <= z;
      var best := if z < x then x else z;
      forall y | y in s ensures y <= best {
        if y != x {
          assert y in s - {x};
        }
      }
    }
  }

  // ----- cliques and strata -----

  /** A literal whose propagation fails is false in every model. */
  lemma FailedAdmissible(w: World, l: Lit)
    requires Base(w) && Unsat(w.s.clauses, {l})
    ensures Admissible(w.s, w.p, w.cut, [Neg(l)])
  {
    forall m: Assignment | Sat(m, w.s.clauses) ensures SatClause(m, [Neg(l)]) {
      assert AllTrue(m, {l}) <==> True(m, l);
      assert Neg(l) in [Neg(l)];
    }
    hide Ok, ForcedBelow, Shape, CardsOk, IndexOk, Forces, Survive;
    ImpliedAdmissible(w.s, w.p, w.cut, [Neg(l)]);
  }

  /** Literals excluded by `lit`, reduced to a clique, form a clique with it. */
  lemma CliqueWith(clauses: set<Clause>, poids: map<nat, int>, rest: seq<Lit>, others: seq<Lit>, lit: Lit, prop: set<Lit>)
    requires Distinct(rest) && WeightOf(poids, lit) > 0 && forall l | l in rest :: l in others
    requires forall i | 0 <= i < |others| :: Neg(others[i]) in prop && WeightOf(poids, others[i]) > 0 && others[i] != lit
    requires forall q | q in prop :: Unsat(clauses, {lit, Neg(q)})
    requires forall k, l | k in rest && l in rest && k != l :: Unsat(clauses, {k, l})
    ensures Distinct(rest + [lit]) && PairwiseIncompatible(clauses, rest + [lit])
    ensures forall l | l in rest + [lit] :: WeightOf(poids, l) > 0
  {
    forall l | l in rest ensures l != lit && WeightOf(poids, l) > 0 && Unsat(clauses, {lit, l}) {
      var i :| 0 <= i < |others| && others[i] == l;
      assert Neg(Neg(l)) == l;
    }
    forall k, l | k in rest + [lit] && l in rest + [lit] && k != l ensures Unsat(clauses, {k, l}) {
      assert {k, l} == {l, k};
    }
  }

  lemma OthersExcluded(poids: map<nat, int>, prop: set<Lit>, others: seq<Lit>)
    requires ToSet(others) == set q | q in prop && WeightOf(poids, q) < 0 :: Neg(q)
    ensures forall i | 0 <= i < |others| :: Neg(others[i]) in prop && WeightOf(poids, others[i]) > 0
  {
    forall i | 0 <= i < |others| ensures Neg(others[i]) in prop && WeightOf(poids, others[i]) > 0 {
      assert others[i] in ToSet(others);
      var q :| q in prop && WeightOf(poids, q) < 0 && Neg(q) == others[i];
      assert Neg(others[i]) == q;
    }
  }

  lemma PairExcluded(clauses: set<Clause>, clauses': set<Clause>, poids: map<nat, int>, lit: Lit, q: Lit)
    requires Unsat(clauses, {lit, Neg(q)}) && clauses <= clauses' && q.v != lit.v
    requires WeightOf(poids, lit) > 0 && WeightOf(poids, q) < 0
    ensures var c := [Neg(q), lit];
            Distinct(c) && PairwiseIncompatible(clauses', c) && forall l | l in c :: WeightOf(poids, l) > 0
  {
    UnsatMore(clauses, clauses', {lit, Neg(q)});
    assert {lit, Neg(q)} == {Neg(q), lit};
  }

  lemma InitAssumOk(w: World, minWeight: nat, assum: set<Lit>)
    requires Base(w) && minWeight > 0
    requires assum == set x, l | x in w.index && x >= minWeight && l in w.index[x] :: l
    ensures AssumOk(assum, w.f.poids, minWeight)
  {
    forall l: Lit ensures l in assum <==> WeightOf(w.f.poids, l) >= minWeight {
      if WeightOf(w.f.poids, l) >= minWeight {
        assert Filed(w.index, WeightOf(w.f.poids, l), l);
      }
      if l in assum {
        var x :| x in w.index && x >= minWeight && l in w.index[x];
        assert Filed(w.index, x, l);
      }
    }
  }

  /** Everyone who falsifies the literal pays that much more. */
  ghost predicate Pays(w: World, w': World, l: Lit, x: nat) {
    && WfCards(w.f) && WfCards(w'.f) && w'.s == w.s && w'.p == w.p && w'.cut == w.cut
    && forall view: View | view.Some? :: Value(w'.f, view, w.s.nVars) == Value(w.f, view, w.s.nVars) + Pay(x, view, l)
  }

  lemma InputsSoft(w: World, c: Clause)
    requires Base(w) && forall l | l in c :: l.v in w.s.inputs
    ensures forall l | l in c :: l.v <= w.s.nVars && Soft(l, w.s.defs, w.s.inputs)
  {
    hide Base;
    forall l | l in c ensures l.v <= w.s.nVars && Soft(l, w.s.defs, w.s.inputs) {
      InputFacts(w, l);
    }
  }

  // ----- runs -----

  method SeqOf(s: set<Lit>) returns (r: seq<Lit>)
    ensures Distinct(r) && ToSet(r) == s
  {
    r := [];
    var todo := s;
    while todo != {}
      invariant Distinct(r) && ToSet(r) == s - todo && todo <= s
      decreases |todo|
    {
      var l :| l in todo;
      assert l !in ToSet(r) && ToSet(r + [l]) == ToSet(r) + {l};
      r := r + [l];
      todo := todo - {l};
    }
  }

  lemma RunOn(w0: World, w: World, w': World)
    requires Inv(w) && Step(w0, w) && Step(w, w')
    ensures Inv(w') && Step(w0, w')
  {
    StepKeepsInv(w, w');
    StepTransitive(w0, w, w');
  }

  lemma TracksUse(a: set<Lit>, p: map<nat, int>, a': set<Lit>, p': map<nat, int>, minWeight: nat)
    requires Tracks(a, p, a', p') && minWeight > 0 && AssumOk(a, p, minWeight)
    ensures AssumOk(a', p', minWeight)
  {
  }

  lemma CoreWeights(assum: set<Lit>, poids: map<nat, int>, minWeight: nat, core: seq<Lit>)
    requires AssumOk(assum, poids, minWeight) && minWeight > 0 && ToSet(core) <= assum
    ensures forall l | l in core :: WeightOf(poids, l) > 0
  {
    forall l | l in core ensures WeightOf(poids, l) > 0 {
      assert l in ToSet(core);
    }
  }

  lemma AssumAll(assum: set<Lit>, poids: map<nat, int>, m: Assignment)
    requires AssumOk(assum, poids, 1) && AllTrue(m, assum)
    ensures forall l: Lit | WeightOf(poids, l) > 0 :: True(m, l)
  {
  }

  lemma NothingFiled(w: World)
    requires Base(w) && w.index == map[]
    ensures forall l: Lit :: WeightOf(w.f.poids, l) <= 0
  {
    assert forall x: nat, l: Lit :: !Filed(w.index, x, l);
  }

  lemma CoreEmpty(clauses: set<Clause>, core: set<Lit>)
    requires core <= {} && Unsat(clauses, core)
    ensures Unsat(clauses, {})
  {
    assert core == {};
  }

  /** The variables 1..n. */
  ghost function Numbers(n: nat): (r: set<nat>)
    ensures forall v :: v in r <==> 1 <= v <= n
  {
    if n == 0 then {} else Numbers(n - 1) + {n}
  }

  class EvalMaxSat {
    const store: LazyStore

    var poids: map<nat, int>
    var index: Index
    var cost: nat
    var a2c: map<nat, LitCard>
    var cards: seq<Tree>
    var cardToAdd: seq<Pending>
    var litToRelax: seq<Lit>

    var solution: Assignment
    var solutionCost: Option<nat>

    // The strategies that can be switched off.
    var delayStrategy: bool
    var multiSolveStrategy: bool
    var ubStrategy: bool

    // More clauses may follow a solve; nothing is hardened.
    var isIncremental: bool

    ghost var asked: seq<nat>
    ghost var problem: Problem

    // The upper bound that literals were last hardened against; nothing cheaper was lost.
    ghost var cutoff: Option<nat>

    function F(): (f: Formula)
      reads this
    {
      Formula(poids, a2c, VarsOf(litToRelax), LeavesOf(cards), cardToAdd, cost)
    }

    ghost function W(): (w: World)
      reads this, store, store.solver
    {
      World(store.State(), F(), cards, asked, problem, index, cutoff)
    }

    constructor ()
      ensures Inv(W()) && fresh(store) && fresh(store.solver)
      ensures problem == Problem({}, []) && solutionCost.None? && cutoff.None? && ubStrategy && !isIncremental
      ensures F() == Formula(map[], map[], {}, [], [], 0) && Exhausted(F()) && litToRelax == [] && store.solver.inputs == {} && store.solver.nVars == 0
    {
      var solver := new SatSolver();
      store := new LazyStore(solver);
      poids, index, cost, a2c := map[], map[], 0, map[];
      cards, cardToAdd, litToRelax := [], [], [];
      solution, solutionCost := {}, None;
      delayStrategy, multiSolveStrategy, ubStrategy, isIncremental := true, true, true, false;
      asked, problem, cutoff := [], Problem({}, []), None;
    }

    /**
     `Solve` can start: nothing was hardened, and the weights that models are priced with will not
     miss what a counter of an earlier run owes.
     */
    ghost predicate Startable()
      reads this, store, store.solver
    {
      Inv(W()) && cutoff.None? && VarsDistinct(litToRelax) && (ubStrategy ==> Exhausted(F()))
    }

    /** Entered so far: the variables 1..n and these clauses. */
    ghost predicate Entered(n: nat, hard: set<Clause>, soft: seq<SoftClause>)
      reads this, store, store.solver
    {
      Startable() && problem == Problem(hard, soft) && store.solver.inputs == Numbers(n)
    }

    /**
     `relax`: if the variable is a counter output, the next output of its counter becomes
     soft. The objective regains exactly what the output without weight no longer pays.
     */
    method Relax(lit: Lit) returns (newLit: Option<Lit>)
      requires Base(Zeroed(W(), lit)) && Due(Zeroed(W(), lit), lit.v)
      modifies this`poids, this`a2c, this`index, this`cards, this`asked, store, store.solver
      ensures Relaxed(old(Zeroed(W(), lit)), Zeroed(W(), lit), lit.v)
      ensures newLit.None? ==> poids == old(poids) && index == old(index)
      ensures newLit.Some? ==> FreshWeight(old(poids), poids, newLit.value, old(store.solver.nVars))
      ensures if newLit.None? then Quiet(old(F()), F()) else HasNext(old(F()), lit.v)
    {
      hide Base, Due, Relaxed, FreshWeight, HasNext;
      newLit := None;
      ghost var w := Zeroed(W(), lit);
      if lit.v !in a2c {
        RelaxedNothing(w, lit.v);
        return;
      }
      RelaxFacts(w, lit.v);
      newLit := AskNext(lit);
      if WeightOf(poids, lit) == 0 {
        RelaxedDrop(w, Zeroed(W(), lit), lit.v);
        a2c := a2c - {lit.v};
      }
    }

    /** The part of `relax` that asks the counter for its next output. */
    method AskNext(lit: Lit) returns (newLit: Option<Lit>)
      requires Base(Zeroed(W(), lit)) && Due(Zeroed(W(), lit), lit.v) && lit.v in a2c
      modifies this`poids, this`a2c, this`index, this`cards, this`asked, store, store.solver
      ensures Relaxed(old(Zeroed(W(), lit)), Zeroed(W(), lit), lit.v)
      ensures newLit.None? ==> poids == old(poids) && index == old(index)
      ensures newLit.Some? ==> FreshWeight(old(poids), poids, newLit.value, old(store.solver.nVars))
      ensures lit.v in a2c
      ensures if newLit.None? then Quiet(old(F()), F()) else HasNext(old(F()), lit.v)
    {
      hide Ok, ForcedBelow, TreeOk, Rooted, Unasked, LitAtMost, Asked, Base, Due, Relaxed, FreshWeight, WeightOf, SetWeight, File, IsCounter, Leaves;
      var v := lit.v;
      newLit := None;
      ghost var w := Zeroed(W(), lit);
      var c := a2c[v];
      RelaxFacts(w, v);
      var forCard, t := store.AtMost(cards[c.card], c.k + 1, c.card);
      cards := cards[c.card := t];
      assert LeavesOf(cards) == w.f.leaves;
      if forCard.Some? && forCard.value.v !in a2c {
        var l := forCard.value;
        asked := asked[c.card := c.k + 2];
        a2c := a2c[l.v := LitCard(c.card, c.k + 1, c.w0)];
        FreshWeightOf(poids, l, c.w0, w.s.nVars);
        poids := SetWeight(poids, l, c.w0);
        index := File(index, c.w0, l);
        newLit := Some(l);
        AskedNext(w, Zeroed(W(), lit), t, lit, old(poids));
      } else {
        RelaxedNothing(w, v);
        assert Zeroed(W(), lit) == w;
      }
    }

    /**
     `addClause` without a weight. A unit clause over a soft literal also settles its weight:
     a literal made true is no longer soft, a literal made false is paid for and its counter,
     if it is one, moves on.
     */
    method AddHard(clause: Clause)
      requires Base(W()) && Admissible(store.State(), problem, cutoff, clause)
      modifies this`poids, this`a2c, this`index, this`cards, this`asked, this`cost, store, store.solver
      ensures Step(old(W()), W()) && clause in store.solver.clauses
      ensures |clause| == 1 && WeightOf(old(poids), clause[0]) > 0 ==>
                && poids == SetWeight(old(poids), clause[0], 0) && cost == old(cost) && a2c == old(a2c)
                && index == Unfile(old(index), WeightOf(old(poids), clause[0]), clause[0])
      ensures |clause| == 1 ==> WeightOf(poids, clause[0]) == 0 && Untouched(old(poids), poids, old(store.solver.nVars), clause)
      ensures |clause| == 1 && WeightOf(old(poids), clause[0]) < 0 ==> cost > old(cost)
      ensures |clause| != 1 || WeightOf(old(poids), clause[0]) == 0 ==> F() == old(F())
      ensures Exhausted(old(F())) ==> Exhausted(F())
    {
      hide Base, Step, Admissible;
      if |clause| == 1 && WeightOf(poids, clause[0]) > 0 {
        UntouchedSet(poids, clause[0], 0, store.solver.nVars, clause);
      }
      if |clause| == 1 && WeightOf(poids, clause[0]) != 0 {
        assert clause == [clause[0]];
        if WeightOf(poids, clause[0]) < 0 {
          FalsifySoft(clause[0]);
        } else {
          HardenSoft(clause[0]);
        }
      } else {
        AddOnly(clause);
      }
    }

    method AddOnly(clause: Clause)
      requires Base(W()) && Admissible(store.State(), problem, cutoff, clause)
      modifies store.solver`clauses
      ensures Step(old(W()), W()) && clause in store.solver.clauses
    {
      ghost var w := W();
      AddClauseBase(w, clause);
      store.solver.AddClause(clause);
      assert W() == w.(s := WithClause(w.s, clause));
    }

    method HardenSoft(lit: Lit)
      requires Base(W()) && Admissible(store.State(), problem, cutoff, [lit]) && WeightOf(poids, lit) > 0
      modifies this`poids, this`index, store.solver`clauses
      ensures Step(old(W()), W()) && [lit] in store.solver.clauses
      ensures poids == SetWeight(old(poids), lit, 0)
      ensures index == Unfile(old(index), WeightOf(old(poids), lit), lit)
    {
      hide Base, Step, Admissible;
      ghost var w := W();
      HardenStep(w, lit);
      index := Unfile(index, WeightOf(poids, lit), lit);
      poids := SetWeight(poids, lit, 0);
      store.solver.AddClause([lit]);
      ghost var w1 := Reweighed(w, lit, 0, false);
      assert w1.f.relaxing == w.f.relaxing;
      assert W() == w1.(s := WithClause(w1.s, [lit]));
    }

    method FalsifySoft(lit: Lit)
      requires Base(W()) && Admissible(store.State(), problem, cutoff, [lit]) && WeightOf(poids, lit) < 0
      modifies this`poids, this`a2c, this`index, this`cards, this`asked, this`cost, store, store.solver
      ensures Step(old(W()), W()) && [lit] in store.solver.clauses
      ensures WeightOf(poids, lit) == 0 && Untouched(old(poids), poids, old(store.solver.nVars), [lit]) && cost > old(cost)
      ensures Exhausted(old(F())) ==> Exhausted(F())
    {
      hide Base, Step, Admissible, Relaxed, Untouched, WeightOf, FalsifyWorld, Exhausted;
      ghost var w := W();
      var x := WeightOf(poids, Neg(lit));
      NegWeight(poids, lit);
      PayFalsified(lit, x);
      ghost var w1 := W();
      FalsifyStep(w, FalsifyWorld(w, lit, x), w1, lit, x);
      store.solver.AddClause([lit]);
      assert W() == w1.(s := WithClause(w1.s, [lit]));
    }

    /** The weight of a falsified literal goes to the lower bound and its counter moves on. */
    method PayFalsified(lit: Lit, x: nat)
      requires Base(W()) && x == WeightOf(poids, Neg(lit)) > 0
      modifies this`poids, this`a2c, this`index, this`cards, this`asked, this`cost, store, store.solver
      ensures Relaxed(FalsifyWorld(old(W()), lit, x), W(), lit.v)
      ensures cost == old(cost) + x == FalsifyWorld(old(W()), lit, x).f.cost
      ensures cardToAdd == FalsifyWorld(old(W()), lit, x).f.pending
      ensures WeightOf(poids, lit) == 0 && Untouched(old(poids), poids, old(store.solver.nVars), [lit])
      ensures Exhausted(old(F())) ==> Exhausted(F())
    {
      hide Base, Relaxed, FreshWeight, Due, Untouched, Exhausted, Quiet, HasNext;
      ghost var w := W();
      FalsifyReady(w, lit, x);
      index := Unfile(index, x, Neg(lit));
      cost := cost + x;
      ghost var wz := Zeroed(W(), lit);
      assert wz.f.relaxing == w.f.relaxing + {};
      assert wz.f.poids == SetWeight(w.f.poids, Neg(lit), 0);
      assert wz == FalsifyWorld(w, lit, x);
      ghost var f1 := F();
      var newLit := Relax(lit);
      FalsifyFrame(w.f.poids, poids, lit, newLit, w.s.nVars);
      ghost var f2 := F();
      poids := SetWeight(poids, lit, 0);
      RelaxCalm(w.f, f1, f2, F(), lit.v, newLit.None?);
    }

    /** Take `d` off one clique literal; one that lost its weight is relaxed at once. */
    method LowerClique(lit: Lit, d: nat)
      requires Base(W()) && 0 < d <= WeightOf(poids, lit)
      modifies this`poids, this`a2c, this`index, this`cards, this`asked, store, store.solver
      ensures Lowered(old(W()), W(), lit, d)
      ensures OnlyLowered(old(poids), poids, lit, d, old(store.solver.nVars)) && WeightOf(poids, lit) >= 0
      ensures Untouched(old(poids), poids, old(store.solver.nVars), [lit])
      ensures Exhausted(old(F())) ==> Exhausted(F())
    {
      hide Base, Lowered, Relaxed, Due, Step, Exhausted, Quiet, HasNext;
      ghost var w := W();
      var x := WeightOf(poids, lit);
      if x == d {
        RelaxReady(w, lit);
        SoftFacts(w, lit);
      } else {
        LowerQueued(w, lit, d);
      }
      index := Unfile(index, x, lit);
      poids := SetWeight(poids, lit, x - d);
      if x - d == 0 {
        ghost var w0 := W();
        assert w0.f.relaxing + {} == w0.f.relaxing;
        assert w0 == Reweighed(w, lit, 0, false);
        assert SetWeight(poids, lit, 0) == poids;
        assert Zeroed(w0, lit) == w0;
        var newLit := Relax(lit);
        assert SetWeight(poids, lit, 0) == poids;
        assert Zeroed(W(), lit) == W();
        LowerRelaxed(w, W(), lit, d);
        RelaxCalm(w.f, w0.f, F(), F(), lit.v, newLit.None?);
      } else {
        index := File(index, x - d, lit);
        assert W().f.relaxing == w.f.relaxing + {};
        assert W() == Reweighed(w, lit, x - d, false);
        QuietSame(w.f, F());
        CalmStep(w.f, F());
      }
    }

    /** `newSoftVar` and the clause that ties the new variable to the literals. */
    method SoftDisjunction(lits: seq<Lit>, weight: nat) returns (v: nat)
      requires Base(W()) && weight > 0
      requires forall l | l in lits :: l.v <= store.solver.nVars && Soft(l, store.solver.defs, store.solver.inputs)
      modifies this`poids, this`index, store.solver
      ensures v == old(store.solver.nVars) + 1
      ensures W() == WithSoftClause(old(W()), lits, weight)
      ensures Exhausted(old(F())) ==> Exhausted(F())
    {
      hide Base, StoreStep, Soft, Exhausted, Quiet;
      ghost var w := W();
      v := store.solver.NewVar();
      store.solver.defs := store.solver.defs[v := AnyOf(lits)];
      poids := SetWeight(poids, Lit(v, true), weight);
      index := File(index, weight, Lit(v, true));
      store.solver.AddClause(lits + [Lit(v, false)]);
      NoCounterAbove(w, v);
      QuietSame(w.f, F());
      CalmStep(w.f, F());
    }

    /** The inner loop of `processAtMostOne`: a literal without weight is overwritten by the last one. */
    method LowerAll(save: seq<Lit>, d: nat) returns (clause: seq<Lit>)
      requires Base(W()) && Distinct(save) && d > 0
      requires forall l | l in save :: WeightOf(poids, l) >= d
      requires exists l | l in save :: WeightOf(poids, l) == d
      modifies this`poids, this`a2c, this`index, this`cards, this`asked, store, store.solver
      ensures LoweredAll(old(W()), W(), save, d)
      ensures |clause| < |save| && Distinct(clause)
      ensures forall l | l in clause :: l in save && WeightOf(poids, l) > 0
      ensures Untouched(old(poids), poids, old(store.solver.nVars), save) && store.solver.nVars >= old(store.solver.nVars)
      ensures NonNegative(poids, save)
      ensures Exhausted(old(F())) ==> Exhausted(F())
    {
      hide Base, Lowered, LoweredAll, WeightOf, Progress, Untouched, NonNegative, OnlyLowered, Exhausted;
      UntouchedSelf(poids, store.solver.nVars, save);
      NonNegativeStart(poids, save);
      clause := save;
      var i := 0;
      ghost var w0 := W();
      ghost var done: seq<Lit> := [];
      ghost var least: Lit :| least in save && WeightOf(poids, least) == d;
      LoweredNone(w0, d);
      SoftVars(w0, save);
      ProgressStart(save, poids, least);
      while i < |clause|
        invariant i <= |clause|
        invariant LoweredAll(w0, W(), done, d) && store.solver.nVars >= w0.s.nVars
        invariant Exhausted(old(F())) ==> Exhausted(F())
        invariant Progress(save, clause, i, done, poids, w0.f.poids, least)
        invariant Untouched(w0.f.poids, poids, w0.s.nVars, save) && NonNegative(poids, save)
        decreases |clause| - i
      {
        var lit := clause[i];
        ghost var w1 := W();
        LoweredBase(w0, w1, done, d);
        ProgressNext(save, clause, i, done, poids, w0.f.poids, least);
        LowerClique(lit, d);
        UntouchedTransitive(w0.f.poids, w1.f.poids, poids, w0.s.nVars, w1.s.nVars, save, [lit]);
        NonNegativeLowered(save, w1.f.poids, poids, lit, d, w1.s.nVars);
        LoweredGrows(w1, W(), lit, d);
        LoweredMore(w0, w1, W(), done, lit, d);
        if WeightOf(poids, lit) == 0 {
          ghost var before := clause;
          clause := clause[i := clause[|clause| - 1]][..|clause| - 1];
          ProgressDrop(save, before, clause, i, done, w1.f.poids, poids, w0.f.poids, least, d, w1.s.nVars);
        } else {
          ProgressKeep(save, clause, i, done, w1.f.poids, poids, w0.f.poids, least, d, w1.s.nVars);
          i := i + 1;
        }
        done := done + [lit];
      }
      ProgressEnd(save, clause, i, done, poids, w0.f.poids, least);
      LoweredPermute(w0, W(), done, save, d);
    }

    /**
     One round of `processAtMostOne`: the smallest weight comes off every literal of the
     clique, those left without weight drop out, and a new soft literal stands for "one of
     them". The objective of every canonical model stays what it was.
     */
    method ContractClique(clause: seq<Lit>) returns (rest: seq<Lit>, v: nat)
      requires Base(W()) && |clause| > 1 && Distinct(clause)
      requires PairwiseIncompatible(store.solver.clauses, clause)
      requires forall l | l in clause :: WeightOf(poids, l) > 0
      modifies this`poids, this`a2c, this`index, this`cards, this`asked, this`cost, store, store.solver
      ensures Step(old(W()), W())
      ensures |rest| < |clause| && Distinct(rest) && (forall l | l in rest :: l in clause && WeightOf(poids, l) > 0)
      ensures WeightOf(poids, Lit(v, true)) > 0 && old(store.solver.nVars) < v <= store.solver.nVars && cost > old(cost)
      ensures Untouched(old(poids), poids, old(store.solver.nVars), clause) && NonNegative(poids, clause)
      ensures Exhausted(old(F())) ==> Exhausted(F())
    {
      hide Base, LoweredAll, Step, PairwiseIncompatible, Soft, AllButOne, Refile, VarsOf, Untouched, Exhausted, Quiet;
      SoftVars(W(), clause);
      var d := MinWeight(poids, clause);
      assert d > 0;
      ghost var w0 := W();
      rest := LowerAll(clause, d);
      ghost var w1 := W();
      CliqueSoft(w0, w1, clause, d);
      CliqueStep(w0, w1, clause, d);
      AllButOnePositive(d, |clause|);
      cost := cost + AllButOne(d, |clause|);
      ghost var w2 := W();
      QuietSame(w1.f, w2.f);
      CalmStep(w1.f, w2.f);
      LoweredBase(w0, w1, clause, d);
      CostBase(w1, w2);
      v := SoftDisjunction(clause, d);
      UntouchedSet(w1.f.poids, Lit(v, true), d, w0.s.nVars, clause);
      UntouchedTransitive(w0.f.poids, w1.f.poids, poids, w0.s.nVars, w0.s.nVars, clause, clause);
    }

    /**
     `processAtMostOne`: contract a set of pairwise incompatible soft literals round by
     round. No more assumptions come out than went in, each a soft literal of the clique or a
     new one, and no other weight changes.
     */
    method ProcessAtMostOne(lits: seq<Lit>) returns (newAssum: seq<Lit>)
      requires Base(W()) && Distinct(lits) && PairwiseIncompatible(store.solver.clauses, lits)
      requires forall l | l in lits :: WeightOf(poids, l) > 0
      modifies this`poids, this`a2c, this`index, this`cards, this`asked, this`cost, store, store.solver
      ensures Step(old(W()), W()) && |newAssum| <= |lits| && (|lits| > 1 ==> cost > old(cost))
      ensures Outcome(poids, old(store.solver.nVars), store.solver.nVars, lits, newAssum)
      ensures Untouched(old(poids), poids, old(store.solver.nVars), lits) && NonNegative(poids, lits)
      ensures Exhausted(old(F())) ==> Exhausted(F())
    {
      hide Base, Step, PairwiseIncompatible, WeightOf, Untouched, NonNegative, Outcome, Exhausted;
      newAssum := [];
      var clause := lits;
      ghost var w0 := W();
      StepReflexive(w0);
      SoftVars(w0, lits);
      ContractStart(w0, lits);
      while |clause| > 1
        invariant Base(W()) && Step(w0, W()) && cost >= w0.f.cost && (clause != lits ==> cost > w0.f.cost)
        invariant Distinct(clause) && PairwiseIncompatible(store.solver.clauses, clause)
        invariant forall l | l in clause :: WeightOf(poids, l) > 0 && l in lits
        invariant |newAssum| + |clause| <= |lits| && store.solver.nVars >= w0.s.nVars
        invariant Outcome(poids, w0.s.nVars, store.solver.nVars, [], newAssum)
        invariant Untouched(w0.f.poids, poids, w0.s.nVars, lits) && NonNegative(poids, lits)
        invariant Exhausted(old(F())) ==> Exhausted(F())
        decreases |clause|
      {
        ghost var w := W();
        var rest, v := ContractClique(clause);
        StepTransitive(w0, w, W());
        StepFacts(w, W());
        PairwiseStable(w.s.clauses, store.solver.clauses, clause, rest);
        UntouchedTransitive(w0.f.poids, w.f.poids, poids, w0.s.nVars, w.s.nVars, lits, clause);
        NonNegativePart(w.f.poids, poids, w.s.nVars, lits, clause);
        OutcomeMore(w.f.poids, poids, w0.s.nVars, w.s.nVars, store.solver.nVars, clause, newAssum, Lit(v, true));
        clause := rest;
        newAssum := newAssum + [Lit(v, true)];
      }
      ContractEnd(w0, W(), lits, clause, newAssum);
      if |clause| == 1 {
        assert clause == [clause[0]];
        newAssum := newAssum + [clause[0]];
      } else {
        assert newAssum + clause == newAssum;
      }
    }

    /** Take `d` off one core literal; a counter output that lost its weight goes to the relax queue. */
    method LowerCoreLit(lit: Lit, d: nat, minWeight: nat, assum: set<Lit>) returns (assum': set<Lit>)
      requires Base(W()) && 0 < d <= WeightOf(poids, lit) && minWeight > 0
      requires VarsDistinct(litToRelax) && AssumOk(assum, poids, minWeight)
      modifies this`poids, this`index, this`litToRelax
      ensures Lowered(old(W()), W(), lit, d) && poids == SetWeight(old(poids), lit, WeightOf(old(poids), lit) - d)
      ensures VarsDistinct(litToRelax) && AssumOk(assum', poids, minWeight)
    {
      hide Base, Lowered, AssumOk, WeightOf, SetWeight, Unfile, File, VarsDistinct;
      assum' := assum;
      ghost var w := W();
      LowerQueued(w, lit, d);
      SoftFacts(w, lit);
      var x := WeightOf(poids, lit);
      index := Unfile(index, x, lit);
      poids := SetWeight(poids, lit, x - d);
      if x - d == 0 {
        if lit.v in a2c {
          PushVar(litToRelax, lit);
          litToRelax := litToRelax + [lit];
        }
      } else {
        index := File(index, x - d, lit);
      }
      LowerAssum(assum', w.f.poids, lit, x - d, minWeight);
      if WeightOf(poids, lit) < minWeight {
        assum' := assum' - {lit};
      }
      assert W() == Reweighed(w, lit, x - d, x == d && lit.v in w.f.a2c);
    }

    /** The weight loop over a core. */
    method LowerCore(core: seq<Lit>, d: nat, minWeight: nat, assum: set<Lit>) returns (assum': set<Lit>)
      requires Base(W()) && Distinct(core) && d > 0 && minWeight > 0
      requires forall l | l in core :: WeightOf(poids, l) >= d
      requires VarsDistinct(litToRelax) && AssumOk(assum, poids, minWeight)
      modifies this`poids, this`index, this`litToRelax
      ensures LoweredAll(old(W()), W(), core, d) && CoreLowered(old(poids), poids, core, d)
      ensures VarsDistinct(litToRelax) && AssumOk(assum', poids, minWeight)
    {
      hide Base, Lowered, LoweredAll, AssumOk, WeightOf, VarsDistinct, CoreLowered, SetWeight;
      assum' := assum;
      ghost var w0 := W();
      LoweredNone(w0, d);
      CoreLoweredNone(poids, d);
      CoreVars(w0, core);
      for i := 0 to |core|
        invariant LoweredAll(w0, W(), core[..i], d) && CoreLowered(w0.f.poids, poids, core[..i], d)
        invariant VarsDistinct(litToRelax) && AssumOk(assum', poids, minWeight)
      {
        ghost var w1 := W();
        LoweredBase(w0, w1, core[..i], d);
        CoreLoweredAt(w0.f.poids, w1.f.poids, core, i, d);
        assum' := LowerCoreLit(core[i], d, minWeight, assum');
        LoweredMore(w0, w1, W(), core[..i], core[i], d);
        assert core[..i + 1] == core[..i] + [core[i]];
        CoreLoweredNext(w0.f.poids, w1.f.poids, poids, core, i, d);
      }
      assert core[..|core|] == core;
    }

    /** Step 3 of `solve` on a core: the lower bound rises by its smallest weight. */
    method HandleCore(core: seq<Lit>, minWeight: nat, assum: set<Lit>) returns (assum': set<Lit>, ghost d: nat)
      requires Base(W()) && Distinct(core) && core != [] && minWeight > 0
      requires Unsat(store.solver.clauses, ToSet(core))
      requires forall l | l in core :: WeightOf(poids, l) > 0
      requires VarsDistinct(litToRelax) && AssumOk(assum, poids, minWeight)
      modifies this`poids, this`index, this`litToRelax, this`cardToAdd, this`cost
      ensures Step(old(W()), W()) && cost == old(cost) + d && cardToAdd == old(cardToAdd) + [Pending(Negated(core), d)]
      ensures d > 0 && Least(old(poids), core, d) && CoreLowered(old(poids), poids, core, d)
      ensures VarsDistinct(litToRelax) && AssumOk(assum', poids, minWeight)
    {
      hide Base, LoweredAll, Step, AssumOk, Soft, CoreLowered;
      var least := MinWeight(poids, core);
      assert least > 0;
      d := least;
      ghost var w0 := W();
      assum' := LowerCore(core, least, minWeight, assum);
      ghost var w1 := W();
      CliqueSoft(w0, w1, core, d);
      WeightsConsistent(w0.f.poids, core);
      CoreStep(w0, w1, core, d);
      cardToAdd := cardToAdd + [Pending(Negated(core), least)];
      cost := cost + least;
    }

    /** The loop over `_litToRelax`. */
    method RelaxQueue(minWeight: nat, assum: set<Lit>) returns (assum': set<Lit>)
      requires Base(W()) && VarsDistinct(litToRelax) && AssumOk(assum, poids, minWeight) && minWeight > 0
      modifies this`poids, this`a2c, this`index, this`cards, this`asked, this`litToRelax, store, store.solver
      ensures Step(old(W()), W()) && litToRelax == [] && AssumOk(assum', poids, minWeight)
      ensures Exhausted(old(F())) ==> Exhausted(F())
    {
      hide Base, Step, Relaxed, Due, AssumOk, FreshWeight, Exhausted, Quiet, HasNext;
      assum' := assum;
      StepReflexive(W());
      while litToRelax != []
        invariant Base(W()) && Step(old(W()), W())
        invariant VarsDistinct(litToRelax) && AssumOk(assum', poids, minWeight)
        invariant Exhausted(old(F())) ==> Exhausted(F())
        decreases |litToRelax|
      {
        var lit := litToRelax[0];
        ghost var w := W();
        PopVar(litToRelax);
        RelaxingFacts(w, lit.v);
        UnqueuedBase(w, lit.v);
        litToRelax := litToRelax[1..];
        assert W() == Unqueued(w, lit.v);
        ZeroedSame(W(), lit);
        ghost var poids0 := poids;
        ghost var f1 := F();
        var newLit := Relax(lit);
        RelaxCalm(w.f, f1, F(), F(), lit.v, newLit.None?);
        if newLit.Some? {
          FreshFacts(w, poids, newLit.value);
        }
        ZeroedSame(W(), lit);
        UnqueueStep(w, W(), lit.v);
        StepTransitive(old(W()), w, W());
        StepFacts(w, W());
        if newLit.Some? {
          FreshAssum(assum', poids0, poids, newLit.value, minWeight);
          if WeightOf(poids, newLit.value) >= minWeight {
            assum' := assum' + {newLit.value};
          }
        }
      }
    }

    /** The counter of the oldest pending core; its output 1 becomes soft if the core has two literals. */
    method BuildCounter() returns (newLit: Option<Lit>)
      requires Base(W()) && cardToAdd != []
      modifies this`poids, this`a2c, this`index, this`cards, this`asked, this`cardToAdd, store, store.solver
      ensures Step(old(W()), W()) && cardToAdd == old(cardToAdd)[1..]
      ensures newLit.None? ==> poids == old(poids) && index == old(index)
      ensures newLit.Some? ==> FreshWeight(old(poids), poids, newLit.value, old(store.solver.nVars))
      ensures newLit.Some? <==> |old(cardToAdd)[0].lits| > 1
      ensures newLit.None? ==> a2c == old(a2c) && cards == old(cards)
      ensures newLit.Some? ==>
                && !newLit.value.pos && poids == SetWeight(old(poids), newLit.value, old(cardToAdd)[0].w)
                && a2c == old(a2c)[newLit.value.v := LitCard(|old(cards)|, 1, old(cardToAdd)[0].w)]
                && |cards| == |old(cards)| + 1 && cards[..|old(cards)|] == old(cards)
                && multiset(Leaves(cards[|old(cards)|])) == multiset(old(cardToAdd)[0].lits)
    {
      hide Base, Step, Ok, ForcedBelow, TreeOk, Rooted, Unasked, LitAtMost, Asked, Grows, FreshWeight, Soft, Leaves, SetWeight, File;
      ghost var w := W();
      FirstPending(w);
      CounterReady(w);
      var p := cardToAdd[0];
      var t := store.Build(p.lits, 1, |cards|);
      ghost var s1 := store.State();
      GrowsSame(w.s, s1);
      GrowsForced(w.s, s1);
      var lit, t' := store.AtMost(t, 1, |cards|);
      cardToAdd := cardToAdd[1..];
      newLit := lit;
      assert |multiset(Leaves(t))| == |multiset(p.lits)|;
      if lit.Some? {
        var l := lit.value;
        FreshWeightOf(poids, l, p.w, w.s.nVars);
        poids := SetWeight(poids, l, p.w);
        index := File(index, p.w, l);
        a2c := a2c[l.v := LitCard(|cards|, 1, p.w)];
        cards := cards + [t'];
        asked := asked + [2];
        assert LeavesOf(cards) == w.f.leaves + [Leaves(t)];
        FirstOutputStep(w, W(), s1, t, t');
      } else {
        NoCounterStep(w, W(), s1);
      }
    }

    /** The loop over `_cardToAdd`. */
    method BuildCounters(minWeight: nat, assum: set<Lit>) returns (assum': set<Lit>)
      requires Base(W()) && AssumOk(assum, poids, minWeight) && minWeight > 0
      modifies this`poids, this`a2c, this`index, this`cards, this`asked, this`cardToAdd, store, store.solver
      ensures Step(old(W()), W()) && cardToAdd == [] && AssumOk(assum', poids, minWeight)
      ensures Exhausted(old(F())) ==> Exhausted(F())
    {
      hide Base, Step, AssumOk, FreshWeight;
      assum' := assum;
      StepReflexive(W());
      while cardToAdd != []
        invariant Base(W()) && Step(old(W()), W()) && AssumOk(assum', poids, minWeight)
        invariant Exhausted(old(F())) ==> Exhausted(F())
        decreases |cardToAdd|
      {
        ghost var w := W();
        var newLit := BuildCounter();
        StepTransitive(old(W()), w, W());
        StepFacts(w, W());
        if newLit.Some? {
          FreshFacts(w, poids, newLit.value);
          FreshAssum(assum', w.f.poids, poids, newLit.value, minWeight);
          if WeightOf(poids, newLit.value) >= minWeight {
            assum' := assum' + {newLit.value};
          }
        }
      }
    }

    /** Every literal filed under the top weight becomes hard; only this moves the cut-off. */
    method HardenLevel(top: nat, assum: set<Lit>) returns (n: nat, assum': set<Lit>)
      requires Inv(W()) && solutionCost.Some? && CutOk(cutoff, solutionCost) && cost + top >= solutionCost.value && top in index
      modifies this`poids, this`a2c, this`index, this`cards, this`asked, this`cost, this`cutoff, store, store.solver
      ensures Inv(W()) && Step(old(W()), W()) && cost == old(cost)
      ensures index.Keys == old(index.Keys) && index[top] == {} && n == |old(index[top])|
      ensures Tracks(assum, old(poids), assum', poids) && (n == 0 ==> poids == old(poids))
      ensures cutoff == if n == 0 then old(cutoff) else solutionCost
      ensures Exhausted(old(F())) ==> Exhausted(F())
    {
      hide Base, Identity, Step, Tracks, Admissible, Exhausted;
      n, assum' := 0, assum;
      var todo := index[top];
      TracksSame(assum, poids);
      StepReflexive(W());
      if todo != {} {
        ghost var w := W();
        LowerCut(w, solutionCost.value);
        cutoff := solutionCost;
        StepKeepsInv(w, W());
      }
      while todo != {}
        invariant Inv(W()) && Step(old(W()), W()) && cost == old(cost)
        invariant index.Keys == old(index.Keys) && index[top] == todo && n + |todo| == |old(index[top])|
        invariant Tracks(assum, old(poids), assum', poids) && (n == 0 ==> poids == old(poids))
        invariant Exhausted(old(F())) ==> Exhausted(F())
        invariant cutoff == if old(index[top]) == {} then old(cutoff) else solutionCost
        decreases |todo|
      {
        var lit :| lit in todo;
        ghost var w := W();
        FiledWeight(w, top, lit);
        HardenAdmissible(w, lit);
        AddHard([lit]);
        StepKeepsInv(w, W());
        StepTransitive(old(W()), w, W());
        TracksHard(assum, old(poids), assum', w.f.poids, lit);
        assum' := assum' - {lit};
        n := n + 1;
        todo := todo - {lit};
      }
    }

    /** One round of the loop of `harden`: the top weight, which then leaves the index unless it is the last. */
    method HardenTop(assum: set<Lit>) returns (n: nat, assum': set<Lit>, last: bool)
      requires Inv(W()) && solutionCost.Some? && CutOk(cutoff, solutionCost) && index != map[]
      requires cost + MaxOf(index.Keys) >= solutionCost.value
      modifies this`poids, this`a2c, this`index, this`cards, this`asked, this`cost, this`cutoff, store, store.solver
      ensures Inv(W()) && Step(old(W()), W()) && cost == old(cost) && Tracks(assum, old(poids), assum', poids)
      ensures cutoff == if n == 0 then old(cutoff) else solutionCost
      ensures Exhausted(old(F())) ==> Exhausted(F())
      ensures if last then forall l: Lit :: WeightOf(poids, l) <= 0 else |index| < old(|index|) && index != map[]
    {
      hide Base, Identity, Step, Tracks, WeightOf, Exhausted;
      ghost var w := W();
      var top := MaxOf(index.Keys);
      n, assum' := HardenLevel(top, assum);
      KeysSize(w.index, index);
      last := |index| == 1;
      if last {
        OnlyKey(index, top);
        EmptyIndex(W(), top);
      } else {
        ghost var w1 := W();
        DropKey(w1, top);
        index := index - {top};
        StepTransitive(w, w1, W());
      }
    }

    /**
     `harden`: literals at least as heavy as the gap between the bounds become hard. An
     unsigned gap that wrapped around exceeds every weight. With no weight but 1 in the index
     it gives up at once.
     */
    method Harden(assum: set<Lit>) returns (nbHarden: nat, assum': set<Lit>)
      requires Inv(W()) && CutOk(cutoff, solutionCost)
      modifies this`poids, this`a2c, this`index, this`cards, this`asked, this`cost, this`cutoff, store, store.solver
      ensures Inv(W()) && Step(old(W()), W()) && cost == old(cost)
      ensures Tracks(assum, old(poids), assum', poids)
      ensures !isIncremental && solutionCost.Some? && cost <= solutionCost.value && old(index.Keys) != {1} ==>
                forall l: Lit | WeightOf(poids, l) > 0 :: cost + WeightOf(poids, l) < solutionCost.value
      ensures cutoff == if nbHarden == 0 then old(cutoff) else solutionCost
      ensures isIncremental ==> nbHarden == 0
      ensures Exhausted(old(F())) ==> Exhausted(F())
    {
      hide Inv, Base, Identity, Step, Tracks, WeightOf, Exhausted;
      InvBase(W());
      nbHarden, assum' := 0, assum;
      TracksSame(assum, poids);
      StepReflexive(W());
      if isIncremental || index == map[] || (|index| == 1 && 1 in index) || solutionCost.None? || cost > solutionCost.value {
        if |index| == 1 && 1 in index {
          OnlyKey(index, 1);
        }
        HeaviestFiled(W());
        return;
      }
      var maxCostLit := solutionCost.value - cost;
      while MaxOf(index.Keys) >= maxCostLit
        invariant Inv(W()) && Step(old(W()), W()) && cost == old(cost) && index != map[]
        invariant Tracks(assum, old(poids), assum', poids) && CutOk(cutoff, solutionCost)
        invariant cutoff == if nbHarden == 0 then old(cutoff) else solutionCost
        invariant Exhausted(old(F())) ==> Exhausted(F())
        decreases |index|
      {
        ghost var w := W();
        var n, next, last := HardenTop(assum');
        TracksTransitive(assum, old(poids), assum', w.f.poids, next, poids);
        StepTransitive(old(W()), w, W());
        assum' := next;
        nbHarden := nbHarden + n;
        if last {
          return;
        }
      }
      HeaviestFiled(W());
    }

    // ----- at-most-one constraints -----

    ghost predicate NetOk(net: Net)
      reads this, store, store.solver
    {
      Ready(store.solver.clauses, poids, store.solver.nVars, net)
    }

    /** A soft literal whose propagation fails is paid for. */
    method Fail(lit: Lit)
      requires Inv(W()) && WeightOf(poids, lit) > 0 && Unsat(store.solver.clauses, {lit})
      modifies this`poids, this`a2c, this`index, this`cards, this`asked, this`cost, store, store.solver
      ensures Inv(W()) && Step(old(W()), W()) && cost > old(cost)
      ensures old(store.solver.clauses) <= store.solver.clauses && [Neg(lit)] in store.solver.clauses
      ensures WeightOf(poids, lit) == 0 && old(store.solver.nVars) <= store.solver.nVars
      ensures Untouched(old(poids), poids, old(store.solver.nVars), [lit])
      ensures Exhausted(old(F())) ==> Exhausted(F())
    {
      hide Base, Identity, Step, Admissible, Exhausted;
      ghost var w := W();
      FailedAdmissible(w, lit);
      AddHard([Neg(lit)]);
      StepKeepsInv(w, W());
      StepFacts(w, W());
    }

    /**
     The first loops of `adapt_am1_exact`: soft literals are joined when propagating one
     falsifies the other, and a literal whose propagation fails is paid for.
     */
    method BuildNet(all: seq<Lit>) returns (net: Net)
      requires Inv(W()) && Distinct(all) && forall l | l in all :: WeightOf(poids, l) > 0
      modifies this`poids, this`a2c, this`index, this`cards, this`asked, this`cost, store, store.solver
      ensures Inv(W()) && Step(old(W()), W()) && NetOk(net)
      ensures Exhausted(old(F())) ==> Exhausted(F())
    {
      hide Base, Identity, Step, Ready, AllSoft, Untouched, Edge, Exhausted;
      ghost var w0 := W();
      StepReflexive(w0);
      net := Net(all, seq(|all|, _ => true), NoEdges(|all|));
      SoftVars(w0, all);
      ReadyStart(store.solver.clauses, poids, store.solver.nVars, all);
      var i := 0;
      while i < |net.lits|
        invariant Inv(W()) && Step(w0, W()) && NetOk(net) && AllSoft(poids, net)
        invariant Exhausted(old(F())) ==> Exhausted(F())
        decreases |net.lits| - i
      {
        var lit := net.lits[i];
        ghost var w := W();
        NetAt(store.solver.clauses, poids, store.solver.nVars, net, i);
        var prop := store.solver.Propagate(lit);
        if prop.Some? {
          var linked := LinkAll(net, i, prop.value);
          ReadyLinked(store.solver.clauses, poids, store.solver.nVars, net, linked, i, prop.value);
          AllSoftLinked(poids, net, linked);
          net := linked;
          i := i + 1;
        } else {
          Fail(lit);
          StepTransitive(w0, w, W());
          DropStep(w.s.clauses, store.solver.clauses, w.f.poids, poids, w.s.nVars, store.solver.nVars, net, i);
          net := Drop(net, i);
        }
      }
    }

    /** The loop that puts the literals of a contraction back into the graph. */
    method Reattach(net: Net, q: seq<nat>, newAssum: seq<Lit>) returns (net': Net)
      requires Inv(W()) && NetOk(net) && Distinct(q) && Distinct(newAssum)
      requires Waiting(poids, store.solver.nVars, net, q, newAssum, 0)
      modifies this`poids, this`a2c, this`index, this`cards, this`asked, this`cost, store, store.solver
      ensures Inv(W()) && Step(old(W()), W()) && NetOk(net') && |net'.lits| == |net.lits|
      ensures Exhausted(old(F())) ==> Exhausted(F())
    {
      hide Base, Identity, Step, Ready, Untouched, Edge, Waiting, Exhausted;
      net' := net;
      ghost var w0 := W();
      StepReflexive(w0);
      for j := 0 to |newAssum|
        invariant Inv(W()) && Step(w0, W()) && NetOk(net') && |net'.lits| == |net.lits|
        invariant Waiting(poids, store.solver.nVars, net', q, newAssum, j)
        invariant Exhausted(old(F())) ==> Exhausted(F())
      {
        ghost var w := W();
        net' := ReattachOne(net', q, newAssum, j);
        StepTransitive(w0, w, W());
      }
    }

    method ReattachOne(net: Net, q: seq<nat>, newAssum: seq<Lit>, j: nat) returns (net': Net)
      requires Inv(W()) && NetOk(net) && Distinct(q) && Distinct(newAssum) && j < |newAssum|
      requires Waiting(poids, store.solver.nVars, net, q, newAssum, j)
      modifies this`poids, this`a2c, this`index, this`cards, this`asked, this`cost, store, store.solver
      ensures Inv(W()) && Step(old(W()), W()) && NetOk(net') && |net'.lits| == |net.lits|
      ensures Waiting(poids, store.solver.nVars, net', q, newAssum, j + 1)
      ensures Exhausted(old(F())) ==> Exhausted(F())
    {
      hide Base, Identity, Step, Ready, Untouched, Edge, Waiting, Exhausted;
      ghost var w := W();
      StepReflexive(w);
      var lit := newAssum[j];
      NetSized(store.solver.clauses, poids, store.solver.nVars, net);
      WaitingAttach(poids, store.solver.nVars, net, q, newAssum, j);
      ReadyAttach(store.solver.clauses, poids, store.solver.nVars, net, q[j], lit);
      net' := Attach(net, q[j], lit);
      NetSized(store.solver.clauses, poids, store.solver.nVars, net');
      var prop := store.solver.Propagate(lit);
      if prop.Some? {
        var linked := LinkAll(net', q[j], prop.value);
        ReadyLinked(store.solver.clauses, poids, store.solver.nVars, net', linked, q[j], prop.value);
        WaitingLinked(poids, store.solver.nVars, net', linked, q, newAssum, j + 1);
        net' := linked;
      } else {
        Fail(lit);
        PlacedStep(w.s.clauses, store.solver.clauses, w.f.poids, poids, w.s.nVars, store.solver.nVars, net, q[j], lit);
        WaitingStep(w.f.poids, poids, w.s.nVars, store.solver.nVars, net', q, newAssum, j + 1, lit);
      }
    }

    /** One round of `adapt_am1_exact`: a clique of the graph is contracted. */
    method ContractVertices(net: Net, q: seq<nat>) returns (net': Net)
      requires Inv(W()) && NetOk(net) && |q| >= 2 && Distinct(q) && Clique.IsClique(net.conn, ToSet(q))
      requires forall i | 0 <= i < |q| :: q[i] < |net.lits|
      modifies this`poids, this`a2c, this`index, this`cards, this`asked, this`cost, store, store.solver
      ensures Inv(W()) && Step(old(W()), W()) && cost > old(cost) && NetOk(net') && |net'.lits| == |net.lits|
      ensures Exhausted(old(F())) ==> Exhausted(F())
    {
      hide Base, Identity, Step, Ready, Untouched, Edge, Waiting, PairwiseIncompatible, Outcome, Clique.IsClique, Exhausted;
      ghost var w := W();
      NetSized(w.s.clauses, poids, w.s.nVars, net);
      CliqueIncompatible(store.solver.clauses, poids, store.solver.nVars, net, q);
      var lits := Members(net, q);
      net' := Detach(net, q);
      ReadyDetached(w.s.clauses, poids, w.s.nVars, net, net', q);
      var newAssum := ProcessAtMostOne(lits);
      ghost var w1 := W();
      StepKeepsInv(w, w1);
      StepFacts(w, w1);
      ReadyStep(w.s.clauses, w1.s.clauses, w.f.poids, poids, w.s.nVars, w1.s.nVars, net', lits);
      WaitingStart(poids, w.s.nVars, w1.s.nVars, net', q, lits, newAssum, w.s.clauses, w.f.poids);
      OutcomeDistinct(poids, w.s.nVars, w1.s.nVars, lits, newAssum);
      net' := Reattach(net', q, newAssum);
      StepTransitive(w, w1, W());
      StepFacts(w1, W());
    }

    /**
     `adapt_am1_exact`: maximum cliques of the conflict graph are contracted until none has
     more than two members, unless the last search hit its step limit. Above 30000 soft literals
     nothing is done.
     */
    method AdaptExact() returns (ghost left: Option<Net>, ghost steps: nat)
      requires Inv(W())
      modifies this`poids, this`a2c, this`index, this`cards, this`asked, this`cost, store, store.solver
      ensures Inv(W()) && Step(old(W()), W())
      ensures left.None? ==> W() == old(W()) && exists soft: set<Lit> | AssumOk(soft, poids, 1) :: |soft| > 30000
      ensures left.Some? ==> NetOk(left.value) && (steps <= 100000 ==> SmallCliques(left.value))
      ensures left.Some? ==> steps <= |Clique.ExtendableCliques(left.value.conn)|
      ensures Exhausted(old(F())) ==> Exhausted(F())
    {
      hide Base, Identity, Step, Ready, Slack, AssumOk, Clique.IsClique, Clique.IsGraph, Exhausted, Clique.ExtendableCliques;
      left, steps := None, 0;
      ghost var w0 := W();
      StepReflexive(w0);
      var soft := InitAssum(1);
      var all := SeqOf(soft);
      DistinctSize(all);
      if |all| > 30000 {
        return;
      }
      CoreWeights(soft, poids, 1, all);
      var net := BuildNet(all);
      if net.lits == [] {
        EmptyNet(store.solver.clauses, poids, store.solver.nVars, net);
        left := Some(net);
        return;
      }
      while true
        invariant Inv(W()) && Step(w0, W()) && NetOk(net) && net.lits != []
        invariant Exhausted(old(F())) ==> Exhausted(F())
        decreases Slack(W())
      {
        NetSized(store.solver.clauses, poids, store.solver.nVars, net);
        var search := new Clique.Maxclique(net.conn);
        var q, complete := search.Mcq(Some(100000));
        if |q| <= 2 {
          left, steps := Some(net), search.pk;
          return;
        }
        assert forall i | 0 <= i < |q| :: q[i] in q;
        ghost var w := W();
        net := ContractVertices(net, q);
        StepTransitive(w0, w, W());
        StepSlack(w, W());
      }
    }

    /** `extractAM`. */
    method ExtractAM()
      requires Inv(W())
      modifies this`poids, this`a2c, this`index, this`cards, this`asked, this`cost, store, store.solver
      ensures Inv(W()) && Step(old(W()), W()) && store.solver.inputs == old(store.solver.inputs)
      ensures Exhausted(old(F())) ==> Exhausted(F())
    {
      hide Base, Identity, Step, Exhausted;
      ghost var w := W();
      ghost var _, _ := AdaptExact();
      ghost var w1 := W();
      var _ := AdaptFast();
      StepTransitive(w, w1, W());
      StepFacts(w, W());
    }

    /**
     `adapt_am1_FastHeuristicV7`: each soft literal in turn, with the soft literals that its
     propagation excludes, reduced to a clique and contracted.
     */
    method AdaptFast() returns (found: nat)
      requires Inv(W())
      modifies this`poids, this`a2c, this`index, this`cards, this`asked, this`cost, store, store.solver
      ensures Inv(W()) && Step(old(W()), W())
      ensures Exhausted(old(F())) ==> Exhausted(F())
    {
      hide Base, Identity, Step, Slack, Exhausted;
      found := 0;
      ghost var w0 := W();
      StepReflexive(w0);
      var v := 1;
      while v <= store.solver.nVars
        invariant Inv(W()) && Step(w0, W())
        invariant Exhausted(old(F())) ==> Exhausted(F())
        decreases Slack(W()), store.solver.nVars + 1 - v
      {
        if WeightOf(poids, Lit(v, true)) != 0 {
          ghost var w := W();
          var n := FastLit(Lit(v, WeightOf(poids, Lit(v, true)) > 0));
          found := found + n;
          StepTransitive(w0, w, W());
          StepSlack(w, W());
        }
        v := v + 1;
      }
    }

    method FastLit(lit: Lit) returns (found: nat)
      requires Inv(W()) && WeightOf(poids, lit) > 0
      modifies this`poids, this`a2c, this`index, this`cards, this`asked, this`cost, store, store.solver
      ensures Inv(W()) && Step(old(W()), W())
      ensures if found == 0 then W() == old(W()) else cost > old(cost)
      ensures Exhausted(old(F())) ==> Exhausted(F())
    {
      hide Base, Identity, Step, PairwiseIncompatible, Untouched, Outcome, NonNegative, Exhausted;
      ghost var w := W();
      StepReflexive(w);
      var prop := store.solver.Propagate(lit);
      if prop.None? {
        Fail(lit);
        return 1;
      }
      var others := SeqOf(set q | q in prop.value && WeightOf(poids, q) < 0 :: Neg(q));
      if others == [] {
        return 0;
      }
      OthersExcluded(poids, prop.value, others);
      var rest := ReduceClique(store.solver, others);
      CliqueWith(store.solver.clauses, poids, rest, others, lit, prop.value);
      var _ := ProcessAtMostOne(rest + [lit]);
      StepKeepsInv(w, W());
      return 1;
    }

    /** `adapt_am1_VeryFastHeuristic`: each soft literal in turn, with one excluded soft literal after the other. */
    method AdaptVeryFast() returns (found: nat)
      requires Inv(W())
      modifies this`poids, this`a2c, this`index, this`cards, this`asked, this`cost, store, store.solver
      ensures Inv(W()) && Step(old(W()), W())
      ensures found == 0 ==> poids == old(poids)
      ensures Exhausted(old(F())) ==> Exhausted(F())
    {
      hide Base, Identity, Step, Slack, Exhausted;
      found := 0;
      ghost var w0 := W();
      StepReflexive(w0);
      var v := 1;
      while v <= store.solver.nVars
        invariant Inv(W()) && Step(w0, W()) && (found == 0 ==> poids == old(poids))
        invariant Exhausted(old(F())) ==> Exhausted(F())
        decreases Slack(W()), store.solver.nVars + 1 - v
      {
        if WeightOf(poids, Lit(v, true)) != 0 {
          ghost var w := W();
          var n := VeryFastLit(Lit(v, WeightOf(poids, Lit(v, true)) > 0));
          found := found + n;
          StepTransitive(w0, w, W());
          StepSlack(w, W());
        }
        v := v + 1;
      }
    }

    method VeryFastLit(lit: Lit) returns (found: nat)
      requires Inv(W()) && WeightOf(poids, lit) > 0
      modifies this`poids, this`a2c, this`index, this`cards, this`asked, this`cost, store, store.solver
      ensures Inv(W()) && Step(old(W()), W())
      ensures if found == 0 then W() == old(W()) else cost > old(cost)
      ensures Exhausted(old(F())) ==> Exhausted(F())
    {
      hide Base, Identity, Step, PairwiseIncompatible, Untouched, Outcome, Exhausted;
      ghost var w0 := W();
      StepReflexive(w0);
      var prop := store.solver.Propagate(lit);
      if prop.None? {
        Fail(lit);
        return 1;
      }
      found := 0;
      var todo := SeqOf(prop.value);
      for i := 0 to |todo|
        invariant Inv(W()) && Step(w0, W()) && WeightOf(poids, lit) > 0 && w0.s.clauses <= store.solver.clauses
        invariant if found == 0 then W() == w0 else cost > w0.f.cost
        invariant Exhausted(old(F())) ==> Exhausted(F())
      {
        if WeightOf(poids, todo[i]) < 0 {
          ghost var w := W();
          assert todo[i] in ToSet(todo);
          PairExcluded(w0.s.clauses, store.solver.clauses, poids, lit, todo[i]);
          var _ := ProcessAtMostOne([Neg(todo[i]), lit]);
          assert lit in [Neg(todo[i]), lit];
          StepKeepsInv(w, W());
          StepTransitive(w0, w, W());
          StepFacts(w, W());
          found := found + 1;
          if WeightOf(poids, lit) == 0 {
            return;
          }
        }
      }
    }

    /** `initAssum`: everything filed under a weight of the stratum. */
    method InitAssum(minWeight: nat) returns (assum: set<Lit>)
      requires Inv(W()) && minWeight > 0
      ensures AssumOk(assum, poids, minWeight)
    {
      assum := set w, l | w in index && w >= minWeight && l in index[w] :: l;
      InitAssumOk(W(), minWeight, assum);
    }

    /** `chooseNextMinWeight`: a lower stratum; weights nothing is filed under leave the index. */
    method ChooseNextMinWeight(minWeight: nat) returns (next: nat)
      requires Inv(W())
      modifies this`index
      ensures Inv(W()) && Step(old(W()), W())
      ensures 1 <= next && (next == 1 || next < minWeight)
    {
      hide Base, Identity, Step;
      StepReflexive(W());
      if |index| <= 1 {
        return 1;
      }
      var current := minWeight;
      while true
        invariant Inv(W()) && Step(old(W()), W()) && current <= minWeight
        decreases |index|, current
      {
        var below := set w | w in index && w < current;
        if below == {} {
          return 1;
        }
        var w := MaxOf(below);
        if index[w] == {} {
          ghost var w1 := W();
          DropKey(w1, w);
          index := index - {w};
          StepTransitive(old(W()), w1, W());
          if |index| <= 1 {
            return 1;
          }
        } else {
          var lit :| lit in index[w];
          FiledWeight(W(), w, lit);
          var lower := set x | x in index && x < w;
          if lower == {} {
            return 1;
          }
          if 2 * MaxOf(lower) < minWeight {
            return w;
          }
          current := w;
        }
      }
    }

    // ----- entering the problem -----

    /** `newVar`: a variable of the input formula. */
    method NewVar() returns (v: nat)
      requires Inv(W())
      modifies store.solver
      ensures Inv(W()) && v == store.solver.nVars == old(store.solver.nVars) + 1
      ensures store.solver.inputs == old(store.solver.inputs) + {v}
    {
      hide Inv;
      ghost var w := W();
      NewInput(w);
      v := store.solver.NewVar();
      store.solver.inputs := store.solver.inputs + {v};
      assert W() == w.(s := WithInput(w.s));
    }

    /** `addClause` without a weight, called by the user. */
    method AddHardClause(clause: Clause)
      requires Inv(W()) && forall l | l in clause :: l.v in store.solver.inputs
      modifies this`poids, this`a2c, this`index, this`cards, this`asked, this`cost, this`problem, store, store.solver
      ensures Inv(W()) && problem == old(problem).(hard := old(problem).hard + {clause})
      ensures |clause| != 1 || WeightOf(old(poids), clause[0]) == 0 ==> F() == old(F())
      ensures store.solver.inputs == old(store.solver.inputs) && (Exhausted(old(F())) ==> Exhausted(F()))
    {
      hide Base, Identity, Step, Admissible, Exhausted;
      ghost var w := W();
      NewHard(w, clause);
      problem := problem.(hard := problem.hard + {clause});
      ghost var w1 := W();
      AddHard(clause);
      StepFacts(w1, W());
      HardAdded(w, W(), clause);
    }

    /** `addWeight` on an input literal: weights of opposite literals cancel. */
    method AddWeight(lit: Lit, weight: nat)
      requires Inv(W()) && lit.v in store.solver.inputs && weight > 0 && cutoff.None?
      modifies this`poids, this`index, this`cost, this`problem
      ensures Inv(W()) && problem == old(problem).(soft := old(problem).soft + [SoftClause([lit], weight)])
      ensures Exhausted(old(F())) ==> Exhausted(F())
      ensures WeightOf(old(poids), lit) >= 0 ==> poids == SetWeight(old(poids), lit, WeightOf(old(poids), lit) + weight) && cost == old(cost)
    {
      hide Base, Identity, Value, VarSum, Exhausted;
      ghost var w := W();
      if WeightOf(poids, lit) >= 0 {
        RaiseWeight(lit, weight);
      } else {
        var opposite := WeightOf(poids, Neg(lit));
        var common := if weight < opposite then weight else opposite;
        CancelWeight(lit, common);
        if weight > common {
          RaiseWeight(lit, weight - common);
        }
      }
      UnitAdded(w, W(), lit, weight);
      problem := problem.(soft := problem.soft + [SoftClause([lit], weight)]);
    }

    method RaiseWeight(lit: Lit, weight: nat)
      requires Base(W()) && lit.v in store.solver.inputs && weight > 0 && WeightOf(poids, lit) >= 0
      modifies this`poids, this`index
      ensures Base(W()) && Pays(old(W()), W(), lit, weight)
      ensures poids == SetWeight(old(poids), lit, WeightOf(old(poids), lit) + weight)
      ensures Exhausted(old(F())) ==> Exhausted(F())
    {
      hide Base, Value, SetWeight, File, Unfile, Exhausted, Quiet;
      ghost var w := W();
      var x := WeightOf(poids, lit);
      Raise(w, lit, weight);
      if x > 0 {
        index := Unfile(index, x, lit);
      }
      poids := SetWeight(poids, lit, x + weight);
      index := File(index, x + weight, lit);
      assert w.f.relaxing + {} == w.f.relaxing;
      assert W() == Reweighed(w, lit, x + weight, false);
      InputFacts(w, lit);
      QuietSame(w.f, F());
      CalmStep(w.f, F());
      BaseWf(w);
      BaseWf(W());
    }

    method CancelWeight(lit: Lit, common: nat)
      requires Base(W()) && lit.v in store.solver.inputs && 0 < common <= WeightOf(poids, Neg(lit))
      modifies this`poids, this`index, this`cost
      ensures Base(W()) && Pays(old(W()), W(), lit, common)
      ensures Exhausted(old(F())) ==> Exhausted(F())
      ensures WeightOf(poids, Neg(lit)) == WeightOf(old(poids), Neg(lit)) - common
    {
      hide Base, Value, File, Unfile, Exhausted, Quiet;
      ghost var w := W();
      var opposite := WeightOf(poids, Neg(lit));
      Cancel(w, lit, common);
      index := Unfile(index, opposite, Neg(lit));
      cost := cost + common;
      poids := SetWeight(poids, Neg(lit), opposite - common);
      if opposite > common {
        index := File(index, opposite - common, Neg(lit));
      }
      assert w.f.relaxing + {} == w.f.relaxing;
      assert W() == Canceled(w, lit, common);
      InputFacts(w, lit);
      QuietSame(w.f, F());
      CalmStep(w.f, F());
      BaseWf(w);
      BaseWf(W());
    }

    /** `addClause` with a positive weight. */
    method AddSoftClause(clause: Clause, weight: nat)
      requires Inv(W()) && cutoff.None? && forall l | l in clause :: l.v in store.solver.inputs
      modifies this`poids, this`index, this`cost, this`problem, store.solver
      ensures Inv(W())
      ensures problem == if weight == 0 then old(problem)
                         else old(problem).(soft := old(problem).soft + [SoftClause(clause, weight)])
      ensures store.solver.inputs == old(store.solver.inputs) && (Exhausted(old(F())) ==> Exhausted(F()))
    {
      hide Base, Identity, Exhausted, Quiet;
      ghost var w := W();
      if weight == 0 {
        return;
      }
      if |clause| > 1 {
        DisjunctionAdded(w, clause, weight);
        InputsSoft(w, clause);
        var _ := SoftDisjunction(clause, weight);
        problem := problem.(soft := problem.soft + [SoftClause(clause, weight)]);
      } else if |clause| == 1 {
        assert clause == [clause[0]];
        AddWeight(clause[0], weight);
      } else {
        EmptyAdded(w, weight);
        cost := cost + weight;
        QuietSame(w.f, F());
        CalmStep(w.f, F());
        problem := problem.(soft := problem.soft + [SoftClause([], weight)]);
      }
    }

    method EnterVars(n: nat)
      requires Entered(0, {}, []) && store.solver.nVars == 0
      modifies store.solver
      ensures Entered(n, {}, [])
    {
      hide Inv, Exhausted;
      for v := 0 to n
        invariant Entered(v, {}, []) && store.solver.nVars == v
      {
        var _ := NewVar();
      }
    }

    method EnterHard(n: nat, ghost hard0: set<Clause>, ghost soft0: seq<SoftClause>, hard: seq<Clause>)
      requires Entered(n, hard0, soft0) && forall c | c in hard :: Within(c, n)
      modifies this`poids, this`a2c, this`index, this`cards, this`asked, this`cost, this`problem, store, store.solver
      ensures Entered(n, hard0 + ToSet(hard), soft0)
    {
      hide Inv, Exhausted;
      assert hard0 + ToSet(hard[..0]) == hard0;
      for i := 0 to |hard|
        invariant Entered(n, hard0 + ToSet(hard[..i]), soft0)
      {
        assert hard[i] in hard;
        assert hard[..i + 1] == hard[..i] + [hard[i]];
        AddHardClause(hard[i]);
        assert hard0 + ToSet(hard[..i + 1]) == hard0 + ToSet(hard[..i]) + {hard[i]};
      }
      assert hard[..|hard|] == hard;
    }

    method EnterSoft(n: nat, ghost hard0: set<Clause>, ghost soft0: seq<SoftClause>, soft: seq<SoftClause>)
      requires Entered(n, hard0, soft0) && forall i | 0 <= i < |soft| :: Within(soft[i].clause, n)
      modifies this`poids, this`index, this`cost, this`problem, store.solver
      ensures Entered(n, hard0, soft0 + Weighted(soft))
    {
      hide Inv, Exhausted;
      assert soft0 + Weighted(soft[..0]) == soft0;
      for i := 0 to |soft|
        invariant Entered(n, hard0, soft0 + Weighted(soft[..i]))
      {
        assert soft[..i + 1][..i] == soft[..i];
        AddSoftClause(soft[i].clause, soft[i].w);
        assert soft0 + (Weighted(soft[..i]) + [soft[i]]) == soft0 + Weighted(soft[..i]) + [soft[i]];
      }
      assert soft[..|soft|] == soft;
    }

    // ----- solve -----

    /** What holds at every point of a run that started from `w0`. */
    ghost predicate Running(w0: World, minWeight: nat, assum: set<Lit>)
      reads this, store, store.solver
    {
      && Inv(W()) && Step(w0, W())
      && minWeight > 0 && AssumOk(assum, poids, minWeight) && VarsDistinct(litToRelax)
      && Witnessed(problem, cutoff, solutionCost, solution)
      && (isIncremental ==> cutoff.None?)
    }

    /** The state a run ends in. */
    ghost predicate Ended(inputs: set<nat>)
      reads this, store, store.solver
    {
      Inv(W()) && VarsDistinct(litToRelax) && (isIncremental ==> cutoff.None?) && store.solver.inputs == inputs
    }

    /** At every point of a run: until something is hardened the lower bound never exceeds the optimum. */
    lemma RunningBound(w0: World, minWeight: nat, assum: set<Lit>)
      requires Running(w0, minWeight, assum)
      ensures cutoff.None? ==> forall x: Assignment | Sat(x, problem.hard) :: cost <= CostOf(problem.soft, x)
      ensures cutoff.Some? ==> solutionCost.Some? && solutionCost.value <= cutoff.value
    {
      hide Base, Identity, Step, AssumOk;
      if cutoff.None? {
        NeverAboveOptimum(W());
      }
    }

    /** What a returned answer means. */
    ghost predicate Answered(r: bool)
      reads this
    {
      if r then solutionCost.Some? && Optimal(problem, solution, solutionCost.value) else Infeasible(problem)
    }

    /** Steps 1 and 2 of `solve` on a core: try other cores, then minimize. */
    method ImproveCore(first: set<Lit>, assum: set<Lit>) returns (core: seq<Lit>)
      requires first <= assum && Unsat(store.solver.clauses, first)
      modifies store.solver`giveUps
      ensures Distinct(core) && ToSet(core) <= assum && Unsat(store.solver.clauses, ToSet(core))
    {
      core := SeqOf(first);
      if core == [] {
        return;
      }
      if multiSolveStrategy && |core| > 3 {
        var tries: nat := *;
        while tries > 0
          invariant Distinct(core) && ToSet(core) <= assum && Unsat(store.solver.clauses, ToSet(core))
        {
          tries := tries - 1;
          var answer := store.solver.SolveLimited(assum);
          if !answer.Core? {
            break;
          }
          var other := SeqOf(answer.core);
          var shorter, _ := OneMinimize(store.solver, poids, other);
          if * {
            core := shorter;
          }
        }
      }
      if |core| > 1 {
        var shorter, _ := OneMinimize(store.solver, poids, core);
        core := shorter;
      }
    }

    /** Harden; if that and the at-most-one search found something, the assumptions start afresh. */
    method HardenAndAdapt(ghost w0: World, minWeight: nat, assum: set<Lit>) returns (assum': set<Lit>)
      requires Running(w0, minWeight, assum)
      modifies this`poids, this`a2c, this`index, this`cards, this`asked, this`cost, this`cutoff, store, store.solver
      ensures Running(w0, minWeight, assum') && Step(old(W()), W())
    {
      hide Base, Identity, Step, Tracks, AssumOk, VarsDistinct, Witnessed;
      ghost var w := W();
      CutMoves(problem, cutoff, solutionCost, solution);
      var n, next := Harden(assum);
      assum' := next;
      TracksUse(assum, w.f.poids, assum', poids, minWeight);
      ghost var w1 := W();
      StepTransitive(w0, w, w1);
      StepReflexive(w1);
      if n > 0 {
        var found := AdaptVeryFast();
        StepTransitive(w0, w1, W());
        if found > 0 {
          assum' := InitAssum(minWeight);
        }
      }
      StepTransitive(w, w1, W());
    }

    /** One core: raise the lower bound, and harden what the new gap allows. */
    method CoreRound(ghost w0: World, minWeight: nat, assum: set<Lit>, first: set<Lit>)
        returns (verdict: Option<bool>, assum': set<Lit>)
      requires Running(w0, minWeight, assum) && first <= assum && Unsat(store.solver.clauses, first)
      modifies this`poids, this`a2c, this`index, this`cards, this`asked, this`cost, this`cardToAdd, this`litToRelax,
               this`cutoff, store, store.solver
      ensures verdict.Some? ==> Answered(verdict.value) && Ended(w0.s.inputs)
      ensures verdict.None? ==> Running(w0, minWeight, assum') && Step(old(W()), W()) && cost > old(cost)
    {
      hide Base, Identity, Step, AssumOk, VarsDistinct, Witnessed, CoreLowered, Least;
      assum' := assum;
      ghost var w := W();
      StepFacts(w0, w);
      var core := ImproveCore(first, assum);
      if core == [] {
        assert ToSet(core) == {};
        ClausesUnsat(w, solutionCost, solution);
        return Some(solutionCost.Some?), assum';
      }
      CoreWeights(assum, poids, minWeight, core);
      ghost var d;
      assum', d := HandleCore(core, minWeight, assum);
      ghost var w1 := W();
      StepKeepsInv(w, w1);
      StepTransitive(w0, w, w1);
      if solutionCost == Some(cost) {
        BoundsMeet(w1, cost, solution);
        return Some(true), assum';
      }
      if index != map[] && solutionCost.Some? && cost <= solutionCost.value && MaxOf(index.Keys) >= solutionCost.value - cost {
        assum' := HardenAndAdapt(w0, minWeight, assum');
        StepTransitive(w, w1, W());
        StepFacts(w1, W());
      }
      verdict := None;
    }

    /** A model of a lower stratum gives an upper bound. */
    method ImproveUpperBound(ghost w0: World, minWeight: nat, assum: set<Lit>, model: Assignment,
                             snapshot: map<nat, int>, initialCost: nat, n: nat) returns (assum': set<Lit>)
      requires Running(w0, minWeight, assum) && Sat(model, store.solver.clauses)
      requires Inv(w0) && Snapshot(w0.f, snapshot, initialCost) && n == w0.s.nVars
      modifies this`poids, this`a2c, this`index, this`cards, this`asked, this`cost, this`solution, this`solutionCost,
               this`cutoff, store, store.solver
      ensures Running(w0, minWeight, assum') && Step(old(W()), W())
    {
      hide Base, Identity, Step, AssumOk, VarsDistinct, Value;
      assum' := assum;
      ghost var w := W();
      StepReflexive(w);
      var curSolution, curCost := Optimize(store.solver, snapshot, initialCost, n, model, w0.f);
      ModelUpperBound(w0, w, curSolution);
      if solutionCost.None? || curCost < solutionCost.value {
        solutionCost := Some(curCost);
        solution := curSolution;
        StepFacts(w0, w);
        assum' := HardenAndAdapt(w0, minWeight, assum');
      }
    }

    /** One round of the inner loop: a core, an output to relax, a model of the stratum, or no answer. */
    method InnerRound(ghost w0: World, minWeight: nat, assum: set<Lit>, snapshot: map<nat, int>, initialCost: nat, n: nat)
        returns (verdict: Option<bool>, minWeight': nat, assum': set<Lit>, more: bool)
      requires Running(w0, minWeight, assum)
      requires Inv(w0) && (ubStrategy ==> Snapshot(w0.f, snapshot, initialCost)) && n == w0.s.nVars
      modifies this`poids, this`a2c, this`index, this`cards, this`asked, this`cost, this`cardToAdd, this`litToRelax,
               this`solution, this`solutionCost, this`cutoff, store, store.solver
      ensures verdict.Some? ==> Answered(verdict.value) && Ended(w0.s.inputs)
      ensures verdict.None? ==> Running(w0, minWeight', assum') && Step(old(W()), W())
      ensures verdict.None? && more ==> cost > old(cost) || |litToRelax| < old(|litToRelax|)
    {
      hide Base, Identity, Step, AssumOk, Witnessed, Snapshot;
      verdict, minWeight', assum', more := None, minWeight, assum, true;
      ghost var w := W();
      StepReflexive(w);
      var answer: Solver.Answer;
      if |index| <= 1 {
        answer := store.solver.SolveLimited(assum);
      } else {
        answer := store.solver.Solve(assum);
      }
      if answer.Core? {
        verdict, assum' := CoreRound(w0, minWeight, assum, answer.core);
      } else if answer.Unknown? {
        minWeight', more := 1, false;
        assum' := InitAssum(1);
      } else if litToRelax != [] {
        assum' := RelaxQueue(minWeight, assum);
        RunOn(w0, w, W());
      } else {
        if ubStrategy {
          assum' := ImproveUpperBound(w0, minWeight, assum, answer.model, snapshot, initialCost, n);
        }
        more := false;
      }
    }

    /**
     The inner loop of `solve`: cores are taken one after the other, without building their
     counters, until the assumptions are satisfiable or the solver gives up.
     */
    method CorePhase(ghost w0: World, minWeight: nat, assum: set<Lit>, first: set<Lit>,
                     snapshot: map<nat, int>, initialCost: nat, n: nat)
        returns (verdict: Option<bool>, minWeight': nat, assum': set<Lit>)
      requires Running(w0, minWeight, assum) && first <= assum && Unsat(store.solver.clauses, first)
      requires Inv(w0) && (ubStrategy ==> Snapshot(w0.f, snapshot, initialCost)) && n == w0.s.nVars
      modifies this`poids, this`a2c, this`index, this`cards, this`asked, this`cost, this`cardToAdd, this`litToRelax,
               this`solution, this`solutionCost, this`cutoff, store, store.solver
      ensures verdict.Some? ==> Answered(verdict.value) && Ended(w0.s.inputs)
      ensures verdict.None? ==> Running(w0, minWeight', assum') && cardToAdd == [] && litToRelax == []
      ensures verdict.None? ==> Slack(W()) < old(Slack(W()))
    {
      hide Base, Identity, Step, AssumOk, Witnessed, Slack, Snapshot;
      minWeight' := minWeight;
      ghost var start := W();
      verdict, assum' := CoreRound(w0, minWeight, assum, first);
      if verdict.Some? {
        return;
      }
      StepSlack(start, W());
      var more := delayStrategy;
      while more
        invariant verdict.None? && Running(w0, minWeight', assum') && Slack(W()) < Slack(start)
        decreases more, Slack(W()), |litToRelax|
      {
        ghost var w := W();
        verdict, minWeight', assum', more := InnerRound(w0, minWeight', assum', snapshot, initialCost, n);
        if verdict.Some? {
          return;
        }
        StepSlack(w, W());
      }
      assum' := Settle(w0, minWeight', assum');
    }

    /** Successors and counters that were put off are created. */
    method Settle(ghost w0: World, minWeight: nat, assum: set<Lit>) returns (assum': set<Lit>)
      requires Running(w0, minWeight, assum)
      modifies this`poids, this`a2c, this`index, this`cards, this`asked, this`cardToAdd, this`litToRelax, store, store.solver
      ensures Running(w0, minWeight, assum') && cardToAdd == [] && litToRelax == [] && Slack(W()) <= old(Slack(W()))
    {
      hide Base, Identity, Step, AssumOk, Witnessed, Slack;
      ghost var w1 := W();
      assum' := RelaxQueue(minWeight, assum);
      RunOn(w0, w1, W());
      StepSlack(w1, W());
      ghost var w2 := W();
      assum' := BuildCounters(minWeight, assum');
      RunOn(w0, w2, W());
      StepSlack(w2, W());
    }

    /** Without soft literals one call of the SAT solver decides. */
    method SolveHard() returns (r: bool)
      requires Inv(W()) && index == map[] && cardToAdd == [] && litToRelax == [] && solutionCost.None? && cutoff.None?
      modifies this`solution, this`solutionCost
      ensures Answered(r) && Inv(W()) && cutoff.None?
      ensures forall x: Assignment | Sat(x, problem.hard) :: cost <= CostOf(problem.soft, x)
    {
      hide Base, Identity;
      NeverAboveOptimum(W());
      NothingFiled(W());
      var answer := store.solver.Solve({});
      if answer.Core? {
        CoreEmpty(store.solver.clauses, answer.core);
        ClausesUnsat(W(), solutionCost, solution);
        return false;
      }
      ModelOptimal(W(), answer.model);
      solutionCost, solution := Some(cost), answer.model;
      return true;
    }

    /** One round of the outer loop of `solve`. */
    method OuterRound(ghost w0: World, minWeight: nat, assum: set<Lit>, snapshot: map<nat, int>, initialCost: nat, n: nat)
        returns (verdict: Option<bool>, minWeight': nat, assum': set<Lit>)
      requires Running(w0, minWeight, assum) && cardToAdd == [] && litToRelax == []
      requires Inv(w0) && (ubStrategy ==> Snapshot(w0.f, snapshot, initialCost)) && n == w0.s.nVars
      modifies this`poids, this`a2c, this`index, this`cards, this`asked, this`cost, this`cardToAdd, this`litToRelax,
               this`solution, this`solutionCost, this`cutoff, store, store.solver
      ensures verdict.Some? ==> Answered(verdict.value) && Ended(w0.s.inputs)
      ensures verdict.None? ==> Running(w0, minWeight', assum') && cardToAdd == [] && litToRelax == []
      ensures verdict.None? ==>
                Slack(W()) < old(Slack(W())) || (Slack(W()) == old(Slack(W())) && minWeight' < minWeight)
    {
      hide Base, Identity, Step, AssumOk, Slack, Snapshot;
      minWeight', assum' := minWeight, assum;
      StepFacts(w0, W());
      if solutionCost.Some? && cost >= solutionCost.value {
        BoundsMeet(W(), solutionCost.value, solution);
        return Some(true), minWeight', assum';
      }
      ghost var w := W();
      var answer := store.solver.Solve(assum);
      if answer.Core? {
        verdict, minWeight', assum' := CorePhase(w0, minWeight, assum, answer.core, snapshot, initialCost, n);
        return;
      }
      if minWeight == 1 {
        AssumAll(assum, poids, answer.model);
        ModelOptimal(w, answer.model);
        solutionCost, solution := Some(cost), answer.model;
        return Some(true), minWeight', assum';
      }
      minWeight' := ChooseNextMinWeight(minWeight);
      RunOn(w0, w, W());
      StepSlack(w, W());
      assum' := InitAssum(minWeight');
      verdict := None;
    }

    /** The start of `solve`: successors and counters that an earlier run left over are created. */
    method Resume()
      requires Inv(W()) && VarsDistinct(litToRelax)
      modifies this`poids, this`a2c, this`index, this`cards, this`asked, this`cardToAdd, this`litToRelax, store, store.solver
      ensures Inv(W()) && problem == old(problem) && cardToAdd == [] && litToRelax == []
      ensures store.solver.inputs == old(store.solver.inputs)
      ensures Exhausted(old(F())) ==> Exhausted(F())
    {
      hide Base, Identity, Step, AssumOk, Exhausted;
      ghost var w := W();
      var assum := InitAssum(1);
      assum := RelaxQueue(1, assum);
      ghost var w1 := W();
      StepKeepsInv(w, w1);
      StepFacts(w, w1);
      assum := BuildCounters(1, assum);
      StepKeepsInv(w1, W());
      StepFacts(w1, W());
    }

    /**
     `solve`: true with a solution of least cost, or false when the hard clauses have no model.
     */
    method Solve() returns (r: bool)
      requires Startable()
      modifies this`poids, this`a2c, this`index, this`cards, this`asked, this`cost, this`cardToAdd, this`litToRelax,
               this`solution, this`solutionCost, this`cutoff, store, store.solver
      ensures Answered(r) && problem == old(problem) && Ended(old(store.solver.inputs))
      ensures cutoff.None? ==> forall x: Assignment | Sat(x, problem.hard) :: cost <= CostOf(problem.soft, x)
    {
      hide Inv, Step, Base, Identity, CostOf, Optimal, Infeasible, Exhausted;
      solutionCost := None;
      Resume();
      ExtractAM();
      if index == map[] {
        r := SolveHard();
      } else {
        r := SolveSoft();
      }
    }

    /** The loop of `solve` over the strata. */
    method SolveSoft() returns (r: bool)
      requires Inv(W()) && cardToAdd == [] && litToRelax == [] && solutionCost.None? && cutoff.None? && index != map[]
      requires ubStrategy ==> Exhausted(F())
      modifies this`poids, this`a2c, this`index, this`cards, this`asked, this`cost, this`cardToAdd, this`litToRelax,
               this`solution, this`solutionCost, this`cutoff, store, store.solver
      ensures Answered(r) && problem == old(problem) && Ended(old(store.solver.inputs))
      ensures cutoff.None? ==> forall x: Assignment | Sat(x, problem.hard) :: cost <= CostOf(problem.soft, x)
    {
      hide Base, Identity, Step, AssumOk, Slack;
      var snapshot, initialCost, n := poids, cost, store.solver.nVars;
      ghost var w0 := W();
      BaseWf(w0);
      var minWeight := ChooseNextMinWeight(MaxOf(index.Keys) + 1);
      var assum := InitAssum(minWeight);
      while true
        invariant Running(w0, minWeight, assum) && cardToAdd == [] && litToRelax == []
        decreases Slack(W()), minWeight
      {
        var verdict;
        verdict, minWeight, assum := OuterRound(w0, minWeight, assum, snapshot, initialCost, n);
        if verdict.Some? {
          if cutoff.None? {
            NeverAboveOptimum(W());
          }
          return verdict.value;
        }
      }
    }
  }

  // ----- a whole problem -----

  /** Soft clauses without weight are not entered. */
  ghost function Weighted(soft: seq<SoftClause>): (r: seq<SoftClause>) {
    if soft == [] then []
    else
      var n := |soft| - 1;
      if soft[n].w == 0 then Weighted(soft[..n]) else Weighted(soft[..n]) + [soft[n]]
  }

  lemma {:induction false} WeightedCost(soft: seq<SoftClause>, e: Assignment)
    ensures CostOf(Weighted(soft), e) == CostOf(soft, e)
  {
    if soft != [] {
      var n := |soft| - 1;
      WeightedCost(soft[..n], e);
      assert soft == soft[..n] + [soft[n]];
      assert [soft[n]][1..] == [] && CostOf([soft[n]], e) == if SatClause(e, soft[n].clause) then 0 else soft[n].w;
      CostConcat(soft[..n], [soft[n]], e);
      CostConcat(Weighted(soft[..n]), [soft[n]], e);
    }
  }

  lemma WeightedOptimal(hard: set<Clause>, soft: seq<SoftClause>, best: Assignment, cost: nat)
    ensures Optimal(Problem(hard, Weighted(soft)), best, cost) <==> Optimal(Problem(hard, soft), best, cost)
  {
    forall e: Assignment ensures CostOf(Weighted(soft), e) == CostOf(soft, e) {
      WeightedCost(soft, e);
    }
  }

  lemma {:induction false} WeightedConcat(a: seq<SoftClause>, b: seq<SoftClause>)
    ensures Weighted(a + b) == Weighted(a) + Weighted(b)
  {
    if b == [] {
      assert a + b == a;
    } else {
      var n := |b| - 1;
      WeightedConcat(a, b[..n]);
      assert (a + b)[..|a + b| - 1] == a + b[..n];
    }
  }

  /** The clause is over the variables 1..n. */
  predicate Within(c: Clause, n: nat) {
    forall l | l in c :: 1 <= l.v <= n
  }

  /**
   From clauses to an answer: variables, hard and soft clauses are entered and the problem is
   solved. True comes with a solution of least cost, false means that there is none.
   */
  method SolveProblem(n: nat, hard: seq<Clause>, soft: seq<SoftClause>) returns (r: bool, solution: Assignment, cost: nat)
    requires (forall c | c in hard :: Within(c, n)) && forall i | 0 <= i < |soft| :: Within(soft[i].clause, n)
    ensures r ==> Optimal(Problem(ToSet(hard), soft), solution, cost)
    ensures !r ==> Infeasible(Problem(ToSet(hard), soft))
  {
    hide Inv;
    var m := new EvalMaxSat();
    m.EnterVars(n);
    m.EnterHard(n, {}, [], hard);
    assert {} + ToSet(hard) == ToSet(hard);
    m.EnterSoft(n, ToSet(hard), [], soft);
    assert [] + Weighted(soft) == Weighted(soft);
    r := m.Solve();
    solution, cost := m.solution, if m.solutionCost.Some? then m.solutionCost.value else 0;
    WeightedOptimal(ToSet(hard), soft, solution, cost);
  }
}
