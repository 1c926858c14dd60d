/**
 The lazy incremental totalizer. Lazy variables live in an arena and refer to
 each other by index; the solver variable and the clauses of a lazy variable
 come into being when it is first asked for.
 */
module Totalizer {
  import opened Cnf
  import opened Definitions
  import opened Solver

  /** (implicant) => variable, for every implicant; `out` is set by the first `Get`. */
  datatype LazyVar = LazyVar(out: Option<Lit>, implicants: seq<seq<nat>>)

  /** A node with its unary outputs; `inputs` is the number of leaves below. */
  datatype Tree =
    | Leaf(id: nat, lit: Lit)
    | Node(left: Tree, right: Tree, outs: seq<nat>, inputs: nat)

  /** Exactly one implicant of exactly one variable: the two variables are the same. */
  predicate Single(x: LazyVar) {
    |x.implicants| == 1 && |x.implicants[0]| == 1
  }

  function Outs(t: Tree): (r: seq<nat>) {
    if t.Leaf? then [t.id] else t.outs
  }

  function Inputs(t: Tree): (r: nat) {
    if t.Leaf? then 1 else t.inputs
  }

  function Leaves(t: Tree): (r: seq<Lit>) {
    match t
    case Leaf(_, lit) => [lit]
    case Node(l, r, _, _) => Leaves(l) + Leaves(r)
  }

  function Min(a: nat, b: nat): (r: nat) {
    if a <= b then a else b
  }

  // ----- meaning of lazy variables -----

  /** Each lazy variable stands for "more than k of these leaves are true". */
  type Meanings = seq<Def>

  ghost predicate AllHold(m: Assignment, meaning: Meanings, imp: seq<nat>) {
    forall i | i in imp :: i < |meaning| && Holds(m, meaning[i])
  }

  ghost predicate SomeHolds(m: Assignment, meaning: Meanings, imps: seq<seq<nat>>) {
    exists imp | imp in imps :: AllHold(m, meaning, imp)
  }

  /** The implicants describe the meaning exactly. */
  ghost predicate Exact(meaning: Meanings, id: nat, imps: seq<seq<nat>>)
    requires id < |meaning|
  {
    forall m: Assignment :: Holds(m, meaning[id]) <==> SomeHolds(m, meaning, imps)
  }

  /** The implicants that a parent output `k` needs over the outputs of its children. */
  ghost predicate IsImplicant(imp: seq<nat>, a: seq<nat>, b: seq<nat>, k: nat) {
    || (k < |b| && imp == [b[k]])
    || (k < |a| && imp == [a[k]])
    || exists i, j | 0 <= i < |a| && 0 <= j < |b| && i + j + 1 == k :: imp == [a[i], b[j]]
  }

  ghost predicate HasAllImplicants(imps: seq<seq<nat>>, a: seq<nat>, b: seq<nat>, k: nat) {
    && (k < |b| ==> [b[k]] in imps)
    && (k < |a| ==> [a[k]] in imps)
    && (forall i, j | 0 <= i < |a| && 0 <= j < |b| && i + j + 1 == k :: [a[i], b[j]] in imps)
  }

  ghost predicate Means(meaning: Meanings, outs: seq<nat>, leaves: seq<Lit>) {
    forall j | 0 <= j < |outs| :: outs[j] < |meaning| && meaning[outs[j]] == MoreThan(leaves, j)
  }

  /** Soundness of one implicant: unary addition does not overshoot. */
  lemma ImplicantSound(m: Assignment, meaning: Meanings, imp: seq<nat>,
                       la: seq<Lit>, lb: seq<Lit>, a: seq<nat>, b: seq<nat>, k: nat)
    requires Means(meaning, a, la) && Means(meaning, b, lb)
    requires IsImplicant(imp, a, b, k)
    ensures AllHold(m, meaning, imp) ==> Count(m, la + lb) > k
  {
    CountConcat(m, la, lb);
    if k < |b| && imp == [b[k]] {
      assert b[k] in imp;
    } else if k < |a| && imp == [a[k]] {
      assert a[k] in imp;
    } else {
      var i, j :| 0 <= i < |a| && 0 <= j < |b| && i + j + 1 == k && imp == [a[i], b[j]];
      assert imp[0] in imp && imp[1] in imp;
    }
  }

  /** Completeness of the implicants: some one of them witnesses every large enough sum. */
  lemma ImplicantComplete(m: Assignment, meaning: Meanings, imps: seq<seq<nat>>,
                          la: seq<Lit>, lb: seq<Lit>, a: seq<nat>, b: seq<nat>, k: nat)
    requires Means(meaning, a, la) && Means(meaning, b, lb)
    requires |a| >= Min(k + 1, |la|) && |b| >= Min(k + 1, |lb|)
    requires HasAllImplicants(imps, a, b, k)
    requires Count(m, la + lb) > k
    ensures SomeHolds(m, meaning, imps)
  {
    CountConcat(m, la, lb);
    var p := Count(m, la);
    if p == 0 {
      assert AllHold(m, meaning, [b[k]]);
    } else if p > k {
      assert AllHold(m, meaning, [a[k]]);
    } else {
      assert [a[p - 1], b[k - p]] in imps;
      assert AllHold(m, meaning, [a[p - 1], b[k - p]]);
    }
  }

  /** The heart of the encoding: unary addition of two counters is exact. */
  lemma UnaryAddition(meaning: Meanings, id: nat, imps: seq<seq<nat>>,
                      la: seq<Lit>, lb: seq<Lit>, a: seq<nat>, b: seq<nat>, k: nat)
    requires id < |meaning| && meaning[id] == MoreThan(la + lb, k)
    requires Means(meaning, a, la) && Means(meaning, b, lb)
    requires |a| >= Min(k + 1, |la|) && |b| >= Min(k + 1, |lb|)
    requires forall imp | imp in imps :: IsImplicant(imp, a, b, k)
    requires HasAllImplicants(imps, a, b, k)
    ensures Exact(meaning, id, imps)
  {
    forall m: Assignment, imp | imp in imps
      ensures AllHold(m, meaning, imp) ==> Holds(m, meaning[id])
    {
      ImplicantSound(m, meaning, imp, la, lb, a, b, k);
    }
    forall m: Assignment | Holds(m, meaning[id]) ensures SomeHolds(m, meaning, imps) {
      ImplicantComplete(m, meaning, imps, la, lb, a, b, k);
    }
  }

  // ----- lazy emission -----

  ghost predicate VarOk(arena: seq<LazyVar>, meaning: Meanings, id: nat)
    requires |arena| == |meaning| && id < |arena|
  {
    var imps := arena[id].implicants;
    && meaning[id].MoreThan?
    && (forall imp | imp in imps :: imp != [] && forall i | i in imp :: i < id)
    && (if imps == [] then arena[id].out.Some? && meaning[id] == MoreThan([arena[id].out.value], 0)
        else Exact(meaning, id, imps))
  }

  /** In every model of the clauses the output is true when its meaning holds. */
  ghost predicate Forced(x: LazyVar, d: Def, clauses: set<Clause>) {
    x.out.Some? ==> forall m: Assignment | Sat(m, clauses) :: Holds(m, d) ==> True(m, x.out.value)
  }

  /** In every canonical extension the output is true exactly when its meaning holds. */
  ghost predicate OutExact(x: LazyVar, d: Def, defs: Defs) {
    x.out.Some? ==> forall e: Assignment | Respects(e, defs) :: True(e, x.out.value) <==> Holds(e, d)
  }

  ghost predicate LitsOk(d: Def, nVars: nat, defs: Defs, inputs: set<nat>) {
    forall l | l in d.lits :: l.v <= nVars && Soft(Neg(l), defs, inputs)
  }

  /** Clauses added since `before` hold in every canonical extension. */
  ghost predicate Definitional(before: set<Clause>, clauses: set<Clause>, defs: Defs) {
    && before <= clauses
    && forall e: Assignment, c | Respects(e, defs) && c in clauses && c !in before :: SatClause(e, c)
  }

  ghost predicate IsCounter(v: nat, defs: Defs) {
    v in defs && defs[v].MoreThan?
  }

  ghost predicate Extends(before: Defs, defs: Defs) {
    forall v | v in before :: v in defs && defs[v] == before[v]
  }

  /** Variables defined since `before` are forced in their direction by the clauses. */
  ghost predicate NewForced(before: Defs, defs: Defs, clauses: set<Clause>) {
    forall m: Assignment, v | Sat(m, clauses) && v in defs && v !in before :: OneWayAt(m, v, defs[v])
  }

  /** A snapshot of the arena and of the solver below it. */
  datatype Store = Store(arena: seq<LazyVar>, meaning: Meanings, tops: map<nat, nat>,
                         nVars: nat, clauses: set<Clause>, defs: Defs, inputs: set<nat>)

  ghost predicate Ok(s: Store) {
    && WfDefs(s.defs, s.inputs)
    && (forall v | v in s.defs :: 1 <= v <= s.nVars)
    && (forall v | v in s.inputs :: 1 <= v <= s.nVars)
    && |s.arena| == |s.meaning|
    && (forall i | 0 <= i < |s.arena| :: VarOk(s.arena, s.meaning, i))
    && (forall i | 0 <= i < |s.arena| :: OutExact(s.arena[i], s.meaning[i], s.defs))
    && (forall i | 0 <= i < |s.arena| :: LitsOk(s.meaning[i], s.nVars, s.defs, s.inputs))
    && TopsUnused(s.arena, s.tops)
  }

  /** Root outputs, tagged with their counter, feed no other lazy variable. */
  ghost predicate TopsUnused(arena: seq<LazyVar>, tops: map<nat, nat>) {
    && (forall j | j in tops :: j < |arena|)
    && forall i, imp | 0 <= i < |arena| && imp in arena[i].implicants :: NoTop(imp, tops)
  }

  ghost predicate NoTop(ids: seq<nat>, tops: map<nat, nat>) {
    forall j | j in ids :: j !in tops
  }

  /** Root outputs other than `ids` are as they were. */
  ghost predicate TopsKept(s: Store, s': Store, ids: set<nat>) {
    |s.arena| == |s'.arena| && forall j | j in s.tops && j !in ids && j < |s.arena| :: s'.arena[j] == s.arena[j]
  }

  ghost predicate ForcedBelow(s: Store, n: nat) {
    n <= |s.arena| == |s.meaning| && forall i | 0 <= i < n :: Forced(s.arena[i], s.meaning[i], s.clauses)
  }

  /** What calls to `Get` below `n` may change: outputs appear, clauses and variables are added. */
  ghost predicate Emits(s: Store, s': Store, n: nat) {
    && s'.meaning == s.meaning && |s'.arena| == |s.arena| && s'.tops == s.tops
    && (forall i | 0 <= i < |s.arena| :: s'.arena[i].implicants == s.arena[i].implicants)
    && (forall i | 0 <= i < |s.arena| :: s.arena[i].out.Some? ==> s'.arena[i].out == s.arena[i].out)
    && (forall i | n <= i < |s.arena| :: s'.arena[i] == s.arena[i])
    && s'.inputs == s.inputs && s'.nVars >= s.nVars
    && Extends(s.defs, s'.defs)
    && (forall v | v in s'.defs && v !in s.defs :: v > s.nVars)
    && Definitional(s.clauses, s'.clauses, s'.defs)
  }

  lemma EmitsTransitive(s: Store, s1: Store, s2: Store, n: nat)
    requires Emits(s, s1, n) && Emits(s1, s2, n)
    ensures Emits(s, s2, n)
    ensures NewForced(s.defs, s1.defs, s1.clauses) && NewForced(s1.defs, s2.defs, s2.clauses)
            ==> NewForced(s.defs, s2.defs, s2.clauses)
  {
    forall e: Assignment | Respects(e, s2.defs) ensures Respects(e, s1.defs) {
      RespectsSubset(e, s1.defs, s2.defs);
    }
    assert forall m: Assignment | Sat(m, s2.clauses) :: Sat(m, s1.clauses);
  }

  /** More clauses keep an output forced, more definitions keep it exact. */
  lemma ForcedMonotone(s: Store, s': Store, n: nat, k: nat)
    requires n <= k && ForcedBelow(s, k) && Emits(s, s', n) && ForcedBelow(s', n)
    ensures ForcedBelow(s', k)
  {
    assert forall m: Assignment | Sat(m, s'.clauses) :: Sat(m, s.clauses);
    forall i | 0 <= i < k ensures Forced(s'.arena[i], s'.meaning[i], s'.clauses) {
      if i >= n {
        assert Forced(s.arena[i], s.meaning[i], s.clauses);
      }
    }
  }

  /** The state after a news solver variable was given to `id`. */
  ghost function WithFresh(s: Store, id: nat): (s': Store)
    requires id < |s.arena| == |s.meaning|
  {
    s.(nVars := s.nVars + 1,
       defs := s.defs[s.nVars + 1 := s.meaning[id]],
       arena := s.arena[id := s.arena[id].(out := Some(Lit(s.nVars + 1, true)))])
  }

  lemma FreshOk(s: Store, id: nat)
    requires Ok(s) && id < |s.arena| && s.arena[id].out.None?
    ensures Ok(WithFresh(s, id)) && Emits(s, WithFresh(s, id), id + 1)
    ensures ForcedBelow(s, id + 1) ==> ForcedBelow(WithFresh(s, id), id)
  {
    var s' := WithFresh(s, id);
    forall e: Assignment | Respects(e, s'.defs) ensures Respects(e, s.defs) {
      RespectsSubset(e, s.defs, s'.defs);
    }
    forall l: Lit | Soft(l, s.defs, s.inputs) ensures Soft(l, s'.defs, s'.inputs) {
    }
    assert VarOk(s.arena, s.meaning, id);
    forall v | v in s'.defs ensures WfDef(v, s'.defs[v], s'.defs, s'.inputs) {
      if v != s'.nVars {
        assert WfDef(v, s.defs[v], s.defs, s.inputs);
      } else {
        assert LitsOk(s.meaning[id], s.nVars, s.defs, s.inputs);
      }
    }
    forall i | 0 <= i < |s'.arena|
      ensures VarOk(s'.arena, s'.meaning, i)
      ensures OutExact(s'.arena[i], s'.meaning[i], s'.defs)
      ensures LitsOk(s'.meaning[i], s'.nVars, s'.defs, s'.inputs)
    {
      assert VarOk(s.arena, s.meaning, i);
      assert OutExact(s.arena[i], s.meaning[i], s.defs);
      assert LitsOk(s.meaning[i], s.nVars, s.defs, s.inputs);
    }
  }

  lemma EmitsReflexive(s: Store, n: nat)
    ensures Emits(s, s, n) && NewForced(s.defs, s.defs, s.clauses)
  {
  }

  lemma EmitsFacts(s: Store, s': Store, n: nat)
    requires Emits(s, s', n)
    ensures |s'.arena| == |s.arena| && s'.meaning == s.meaning && s.clauses <= s'.clauses && s'.tops == s.tops
    ensures forall i | n <= i < |s.arena| :: s'.arena[i] == s.arena[i]
  {
  }

  ghost predicate ImplicantsForce(imps: seq<seq<nat>>, meaning: Meanings, clauses: set<Clause>, lit: Lit) {
    forall m: Assignment, imp | Sat(m, clauses) && imp in imps :: AllHold(m, meaning, imp) ==> True(m, lit)
  }

  lemma ImplicantsForceStep(imps: seq<seq<nat>>, n: nat, meaning: Meanings,
                            before: set<Clause>, clauses: set<Clause>, lit: Lit)
    requires n < |imps| && before <= clauses
    requires ImplicantsForce(imps[..n], meaning, before, lit)
    requires ImplicantsForce([imps[n]], meaning, clauses, lit)
    ensures ImplicantsForce(imps[..n + 1], meaning, clauses, lit)
  {
    forall m: Assignment, imp | Sat(m, clauses) && imp in imps[..n + 1] && AllHold(m, meaning, imp)
      ensures True(m, lit)
    {
      assert Sat(m, before);
      if imp !in imps[..n] {
        assert imp in [imps[n]];
      }
    }
  }

  /** All clauses of `id` are out: the variable is forced and exact. */
  lemma FinishEmit(s0: Store, s: Store, id: nat, lit: Lit)
    requires Ok(s0) && id < |s0.arena| && s0.arena[id].out.None? && lit == Lit(s0.nVars + 1, true)
    requires Emits(WithFresh(s0, id), s, id) && ForcedBelow(s, id)
    requires NewForced(WithFresh(s0, id).defs, s.defs, s.clauses)
    requires ImplicantsForce(s0.arena[id].implicants, s0.meaning, s.clauses, lit)
    ensures Emits(s0, s, id + 1) && ForcedBelow(s, id + 1) && s.arena[id].out == Some(lit)
    ensures NewForced(s0.defs, s.defs, s.clauses) && IsCounter(lit.v, s.defs)
  {
    var s1 := WithFresh(s0, id);
    FreshOk(s0, id);
    assert VarOk(s0.arena, s0.meaning, id);
    forall m: Assignment | Sat(m, s.clauses) && Holds(m, s0.meaning[id]) ensures True(m, lit) {
      assert SomeHolds(m, s0.meaning, s0.arena[id].implicants);
    }
    assert Emits(s1, s, id + 1);
    EmitsTransitive(s0, s1, s, id + 1);
  }

  /** The clause of one implicant says, in both readings, what the implicant means. */
  lemma ClauseMeaning(s: Store, id: nat, imp: seq<nat>, body: Clause, lit: Lit)
    requires Ok(s) && id < |s.arena| && ForcedBelow(s, id)
    requires imp in s.arena[id].implicants && s.arena[id].out == Some(lit)
    requires |body| == |imp|
    requires forall k | 0 <= k < |imp| :: imp[k] < id && s.arena[imp[k]].out == Some(Neg(body[k]))
    ensures forall e: Assignment | Respects(e, s.defs) :: SatClause(e, body + [lit])
    ensures forall m: Assignment | Sat(m, s.clauses) && SatClause(m, body + [lit]) ::
              AllHold(m, s.meaning, imp) ==> True(m, lit)
  {
    assert VarOk(s.arena, s.meaning, id);
    forall e: Assignment | Respects(e, s.defs) ensures SatClause(e, body + [lit]) {
      if AllHold(e, s.meaning, imp) {
        assert SomeHolds(e, s.meaning, s.arena[id].implicants);
        assert (body + [lit])[|body|] == lit;
      } else {
        var i :| i in imp && !(i < |s.meaning| && Holds(e, s.meaning[i]));
        var k :| 0 <= k < |imp| && imp[k] == i;
        assert OutExact(s.arena[i], s.meaning[i], s.defs);
        assert True(e, (body + [lit])[k]);
      }
    }
    forall m: Assignment | Sat(m, s.clauses) && SatClause(m, body + [lit]) && AllHold(m, s.meaning, imp)
      ensures True(m, lit)
    {
      forall k | 0 <= k < |imp| ensures !True(m, body[k]) {
        assert imp[k] in imp;
        assert Forced(s.arena[imp[k]], s.meaning[imp[k]], s.clauses);
      }
    }
  }

  lemma LinkOk(s: Store, s': Store, id: nat, lit: Lit)
    requires Ok(s) && id < |s.arena| && ForcedBelow(s, id + 1) && s.arena[id].out.None?
    requires Single(s.arena[id])
    requires s.arena[id].implicants[0][0] < id && s.arena[s.arena[id].implicants[0][0]].out == Some(lit)
    requires s' == s.(arena := s.arena[id := s.arena[id].(out := Some(lit))])
    ensures Ok(s') && Emits(s, s', id + 1) && ForcedBelow(s', id + 1)
    ensures NewForced(s.defs, s'.defs, s'.clauses)
  {
    var imps := s.arena[id].implicants;
    var c := imps[0][0];
    assert VarOk(s.arena, s.meaning, id);
    forall m: Assignment ensures Holds(m, s.meaning[id]) <==> Holds(m, s.meaning[c]) {
      assert SomeHolds(m, s.meaning, imps) <==> AllHold(m, s.meaning, imps[0]);
    }
    assert OutExact(s.arena[c], s.meaning[c], s.defs) && Forced(s.arena[c], s.meaning[c], s.clauses);
    forall i | 0 <= i < |s'.arena| && i != id ensures VarOk(s'.arena, s'.meaning, i) {
      assert VarOk(s.arena, s.meaning, i);
    }
  }

  lemma OkImplicant(s: Store, id: nat, imp: seq<nat>)
    requires Ok(s) && id < |s.arena| && imp in s.arena[id].implicants
    ensures |s.arena| == |s.meaning| && forall k | 0 <= k < |imp| :: imp[k] < id && imp[k] !in s.tops
  {
    assert NoTop(imp, s.tops);
    assert VarOk(s.arena, s.meaning, id);
    assert forall k | 0 <= k < |imp| :: imp[k] in imp;
  }

  lemma ForcedWeaken(s: Store, n: nat, k: nat)
    requires n <= k && ForcedBelow(s, k)
    ensures ForcedBelow(s, n)
  {
  }

  lemma EmitsWeaken(s: Store, s': Store, n: nat, k: nat)
    requires n <= k && Emits(s, s', n)
    ensures Emits(s, s', k)
  {
  }

  lemma AddImplicantClause(s: Store, s': Store, id: nat, imp: seq<nat>, body: Clause, lit: Lit)
    requires Ok(s) && id < |s.arena| && ForcedBelow(s, id)
    requires imp in s.arena[id].implicants && s.arena[id].out == Some(lit)
    requires |body| == |imp|
    requires forall k | 0 <= k < |imp| :: imp[k] < id && s.arena[imp[k]].out == Some(Neg(body[k]))
    requires s' == s.(clauses := s.clauses + {body + [lit]})
    ensures Ok(s') && Emits(s, s', id) && ForcedBelow(s', id)
    ensures NewForced(s.defs, s'.defs, s'.clauses)
    ensures ImplicantsForce([imp], s.meaning, s'.clauses, lit)
  {
    ClauseMeaning(s, id, imp, body, lit);
    forall m: Assignment | Sat(m, s'.clauses) ensures Sat(m, s.clauses) && SatClause(m, body + [lit]) {
      assert body + [lit] in s'.clauses;
    }
    assert Definitional(s.clauses, s'.clauses, s'.defs);
    assert Emits(s, s', 0);
    assert ForcedBelow(s', 0);
    ForcedMonotone(s, s', 0, id);
  }

  // ----- counters over the arena -----

  ghost predicate TreeOk(t: Tree, meaning: Meanings) {
    match t
    case Leaf(id, lit) => id < |meaning| && meaning[id] == MoreThan([lit], 0)
    case Node(l, r, outs, inputs) =>
      && TreeOk(l, meaning) && TreeOk(r, meaning)
      && inputs == Inputs(l) + Inputs(r)
      && 1 <= |outs| <= inputs
      && |Outs(l)| >= Min(|outs|, Inputs(l)) && |Outs(r)| >= Min(|outs|, Inputs(r))
      && Means(meaning, outs, Leaves(t))
  }

  lemma {:induction false} TreeFacts(t: Tree, meaning: Meanings)
    requires TreeOk(t, meaning)
    ensures |Leaves(t)| == Inputs(t) && 1 <= |Outs(t)| <= Inputs(t)
    ensures Means(meaning, Outs(t), Leaves(t))
  {
    if t.Node? {
      TreeFacts(t.left, meaning);
      TreeFacts(t.right, meaning);
    }
  }

  lemma {:induction false} TreeStable(t: Tree, meaning: Meanings, meaning': Meanings)
    requires TreeOk(t, meaning) && meaning <= meaning'
    ensures TreeOk(t, meaning')
  {
    if t.Node? {
      TreeStable(t.left, meaning, meaning');
      TreeStable(t.right, meaning, meaning');
    }
  }

  /** Implicants collected for the outputs from `first` on are all wanted. */
  ghost predicate Wanted(news: seq<seq<seq<nat>>>, first: nat, a: seq<nat>, b: seq<nat>) {
    forall t, imp | 0 <= t < |news| && imp in news[t] :: IsImplicant(imp, a, b, first + t)
  }

  ghost predicate HasSingles(news: seq<seq<seq<nat>>>, first: nat, x: seq<nat>, upto: nat) {
    forall t | 0 <= t < |news| && first + t < |x| && first + t < upto :: [x[first + t]] in news[t]
  }

  ghost predicate HasPairs(news: seq<seq<seq<nat>>>, first: nat, a: seq<nat>, b: seq<nat>, i: nat, upto: nat) {
    i < |a| && forall j | 0 <= j < |b| && j < upto && first <= i + j + 1 < first + |news| ::
      [a[i], b[j]] in news[i + j + 1 - first]
  }

  function AddImplicant(news: seq<seq<seq<nat>>>, t: nat, imp: seq<nat>): (r: seq<seq<seq<nat>>>)
    requires t < |news|
    ensures |r| == |news| && forall u, x | 0 <= u < |r| :: x in r[u] <==> x in news[u] || (u == t && x == imp)
  {
    news[t := news[t] + [imp]]
  }

  ghost predicate TopsGrow(tops: map<nat, nat>, tops': map<nat, nat>, size: nat) {
    && (forall j | j in tops :: j in tops' && tops'[j] == tops[j])
    && (forall j | j in tops' && j !in tops :: size <= j)
  }

  /** No output of the subtree is a root output. */
  ghost predicate Inner(t: Tree, tops: map<nat, nat>) {
    match t
    case Leaf(id, _) => id !in tops
    case Node(l, r, outs, _) => Inner(l, tops) && Inner(r, tops) && NoTop(outs, tops)
  }

  /** The root outputs carry the tag of the counter, the outputs below none. */
  ghost predicate Rooted(t: Tree, tops: map<nat, nat>, card: nat) {
    match t
    case Leaf(id, _) => id !in tops
    case Node(l, r, outs, _) => Inner(l, tops) && Inner(r, tops) && Tagged(outs, tops, card)
  }

  ghost predicate Tagged(outs: seq<nat>, tops: map<nat, nat>, card: nat) {
    forall j | j in outs :: j in tops && tops[j] == card
  }

  lemma {:induction false} InnerStable(t: Tree, s: Store, s': Store)
    requires TreeOk(t, s.meaning) && Inner(t, s.tops) && |s.meaning| == |s.arena|
    requires TopsGrow(s.tops, s'.tops, |s.arena|)
    ensures Inner(t, s'.tops)
  {
    if t.Node? {
      assert forall j | j in t.outs :: j < |s.arena|;
      InnerStable(t.left, s, s');
      InnerStable(t.right, s, s');
    }
  }

  lemma RootedStable(t: Tree, s: Store, s': Store, card: nat)
    requires TreeOk(t, s.meaning) && Rooted(t, s.tops, card) && |s.meaning| == |s.arena|
    requires TopsGrow(s.tops, s'.tops, |s.arena|)
    ensures Rooted(t, s'.tops, card)
  {
    if t.Node? {
      InnerStable(t.left, s, s');
      InnerStable(t.right, s, s');
    }
  }

  lemma {:induction false} InnerOuts(t: Tree, tops: map<nat, nat>)
    requires Inner(t, tops)
    ensures NoTop(Outs(t), tops)
  {
  }

  /** Outputs from `k` on were never asked for. */
  ghost predicate Unasked(s: Store, t: Tree, k: nat) {
    forall j | k <= j < |Outs(t)| ::
      Outs(t)[j] < |s.arena| && s.arena[Outs(t)[j]].out.None? && !Single(s.arena[Outs(t)[j]])
  }

  lemma SingleLeaf(queue: seq<Tree>, s: Store, card: nat)
    requires QueueInner(queue, s.tops) && forall i | 0 <= i < |queue| :: queue[i].Leaf?
    ensures |queue| == 1 ==> Rooted(queue[0], s.tops, card) && Unasked(s, queue[0], 1)
  {
  }

  ghost predicate QueueInner(queue: seq<Tree>, tops: map<nat, nat>) {
    forall i | 0 <= i < |queue| :: Inner(queue[i], tops)
  }

  /** Adding lazy variables at the end of the arena changes nothing else. */
  ghost predicate Grows(s: Store, s': Store) {
    && s.arena <= s'.arena && s.meaning <= s'.meaning
    && s'.nVars == s.nVars && s'.clauses == s.clauses && s'.defs == s.defs && s'.inputs == s.inputs
    && TopsGrow(s.tops, s'.tops, |s.arena|)
    && (ForcedBelow(s, |s.arena|) ==> ForcedBelow(s', |s'.arena|))
  }

  lemma GrowsTransitive(s: Store, s1: Store, s2: Store)
    requires Grows(s, s1) && Grows(s1, s2)
    ensures Grows(s, s2)
  {
  }

  lemma GrowsReflexive(s: Store)
    ensures Grows(s, s)
  {
  }

  lemma GrowsMeaning(s: Store, s': Store)
    requires Grows(s, s')
    ensures s.meaning <= s'.meaning && TopsGrow(s.tops, s'.tops, |s.arena|)
  {
  }

  lemma ChildrenOk(t: Tree, meaning: Meanings)
    requires TreeOk(t, meaning) && t.Node?
    ensures TreeOk(t.left, meaning) && TreeOk(t.right, meaning)
    ensures t.inputs == Inputs(t.left) + Inputs(t.right)
    ensures Means(meaning, t.outs, Leaves(t.left) + Leaves(t.right))
  {
  }

  lemma ChildrenInner(t: Tree, tops: map<nat, nat>, tag: Option<nat>)
    requires t.Node? && if tag.None? then Inner(t, tops) else Rooted(t, tops, tag.value)
    ensures Inner(t.left, tops) && Inner(t.right, tops)
  {
  }

  lemma NodeOk(l: Tree, r: Tree, outs: seq<nat>, meaning: Meanings, meaning': Meanings)
    requires TreeOk(l, meaning) && TreeOk(r, meaning) && meaning <= meaning'
    requires Means(meaning', outs, Leaves(l) + Leaves(r))
    requires 1 <= |outs| <= Inputs(l) + Inputs(r)
    requires |Outs(l)| >= Min(|outs|, Inputs(l)) && |Outs(r)| >= Min(|outs|, Inputs(r))
    ensures TreeOk(Node(l, r, outs, Inputs(l) + Inputs(r)), meaning')
  {
    TreeStable(l, meaning, meaning');
    TreeStable(r, meaning, meaning');
  }

  ghost function TagFrom(tops: map<nat, nat>, first: nat, n: nat, tag: nat): (r: map<nat, nat>)
    ensures forall j :: j in r <==> j in tops || first <= j < first + n
    ensures forall j | j in r :: r[j] == if first <= j < first + n then tag else tops[j]
  {
    if n == 0 then tops else TagFrom(tops, first, n - 1, tag)[first + n - 1 := tag]
  }

  /** New outputs `first..` of a node, one lazy variable each. */
  ghost function WithOuts(s: Store, news: seq<seq<seq<nat>>>, leaves: seq<Lit>, first: nat, tag: Option<nat>): (s': Store) {
    s.(tops := if tag.Some? then TagFrom(s.tops, |s.arena|, |news|, tag.value) else s.tops,
       arena := s.arena + seq(|news|, t requires 0 <= t < |news| => LazyVar(None, news[t])),
       meaning := s.meaning + seq(|news|, t requires 0 <= t < |news| => MoreThan(leaves, first + t)))
  }

  lemma ExactStable(meaning: Meanings, meaning': Meanings, id: nat, imps: seq<seq<nat>>)
    requires meaning <= meaning' && id < |meaning|
    requires forall imp | imp in imps :: forall i | i in imp :: i < id
    ensures Exact(meaning, id, imps) <==> Exact(meaning', id, imps)
  {
    forall m: Assignment ensures SomeHolds(m, meaning, imps) <==> SomeHolds(m, meaning', imps) {
      assert forall imp | imp in imps :: AllHold(m, meaning, imp) <==> AllHold(m, meaning', imp);
    }
  }

  ghost predicate OutsReady(s: Store, news: seq<seq<seq<nat>>>, la: seq<Lit>, lb: seq<Lit>,
                            a: seq<nat>, b: seq<nat>, first: nat) {
    && Ok(s) && Means(s.meaning, a, la) && Means(s.meaning, b, lb)
    && 1 <= |a| <= |la| && 1 <= |b| <= |lb| && first + |news| <= |la| + |lb|
    && |a| >= Min(first + |news|, |la|) && |b| >= Min(first + |news|, |lb|)
    && NoTop(a, s.tops) && NoTop(b, s.tops)
    && Wanted(news, first, a, b)
    && forall t | 0 <= t < |news| :: HasAllImplicants(news[t], a, b, first + t)
  }

  lemma OkSizes(s: Store)
    requires Ok(s)
    ensures |s.arena| == |s.meaning|
  {
  }

  lemma OkTops(s: Store)
    requires Ok(s)
    ensures |s.arena| !in s.tops
  {
  }

  lemma MeansNone(meaning: Meanings, leaves: seq<Lit>)
    ensures Means(meaning, [], leaves)
  {
  }

  /** New outputs without a tag are inner ones. */
  lemma OutsInner(s: Store, s': Store, outs: seq<nat>, tag: Option<nat>)
    requires Ok(s) && NewOuts(s, s', [], outs, tag)
    ensures if tag.None? then NoTop(outs, s'.tops) else Tagged(outs, s'.tops, tag.value)
  {
  }

  lemma IncreasedNode(t: Tree, t': Tree, s0: Store, s2: Store, s: Store, tag: Option<nat>)
    requires Ok(s0) && Ok(s2) && Ok(s) && Grows(s0, s2) && Grows(s2, s) && s2.tops == s0.tops
    requires t.Node? && t'.Node? && TreeOk(t, s0.meaning) && t'.inputs == t.inputs
    requires if tag.None? then Inner(t, s0.tops) else Rooted(t, s0.tops, tag.value)
    requires TreeOk(t'.left, s2.meaning) && TreeOk(t'.right, s2.meaning)
    requires Inner(t'.left, s2.tops) && Inner(t'.right, s2.tops)
    requires Leaves(t'.left) == Leaves(t.left) && Leaves(t'.right) == Leaves(t.right)
    requires Inputs(t'.left) == Inputs(t.left) && Inputs(t'.right) == Inputs(t.right)
    requires t.outs <= t'.outs && |t'.outs| <= t.inputs
    requires Means(s.meaning, t'.outs, Leaves(t'.left) + Leaves(t'.right))
    requires |Outs(t'.left)| >= Min(|t'.outs|, Inputs(t.left)) && |Outs(t'.right)| >= Min(|t'.outs|, Inputs(t.right))
    requires NewOuts(s2, s, t.outs, t'.outs, tag)
    ensures TreeOk(t', s.meaning) && (tag.None? ==> s.tops == s0.tops)
    ensures if tag.None? then Inner(t', s.tops) else Rooted(t', s.tops, tag.value)
    ensures forall k | 1 <= k && Unasked(s0, t, k) :: Unasked(s, t', k)
  {
    hide Ok, Means;
    OkSizes(s0);
    OkSizes(s2);
    TreeFacts(t, s0.meaning);
    NodeOk(t'.left, t'.right, t'.outs, s2.meaning, s.meaning);
    InnerStable(t'.left, s2, s);
    InnerStable(t'.right, s2, s);
    OutsIncreased(t.outs, t'.outs, s0, s2, s, tag);
    forall k, j | 1 <= k && Unasked(s0, t, k) && k <= j < |t'.outs|
      ensures t'.outs[j] < |s.arena| && s.arena[t'.outs[j]].out.None? && !Single(s.arena[t'.outs[j]])
    {
      if j < |t.outs| {
        assert Outs(t)[j] < |s0.arena|;
        assert s.arena[t.outs[j]] == s0.arena[t.outs[j]];
      }
    }
  }

  lemma OutsIncreased(outs: seq<nat>, outs': seq<nat>, s0: Store, s2: Store, s: Store, tag: Option<nat>)
    requires Ok(s2) && TopsGrow(s2.tops, s.tops, |s2.arena|) && s2.tops == s0.tops
    requires if tag.None? then NoTop(outs, s0.tops) else Tagged(outs, s0.tops, tag.value)
    requires NewOuts(s2, s, outs, outs', tag)
    ensures if tag.None? then NoTop(outs', s.tops) else Tagged(outs', s.tops, tag.value)
  {
    forall j | j in outs' ensures if tag.None? then j !in s.tops else j in s.tops && s.tops[j] == tag.value {
      var k :| 0 <= k < |outs'| && outs'[k] == j;
      if k < |outs| {
        assert outs[k] in outs;
      }
    }
  }

  lemma OldOutOk(s: Store, s': Store, i: nat)
    requires Ok(s) && s.arena <= s'.arena && s.meaning <= s'.meaning && |s'.arena| == |s'.meaning|
    requires s'.defs == s.defs && s'.inputs == s.inputs && s'.nVars == s.nVars
    requires i < |s.arena|
    ensures VarOk(s'.arena, s'.meaning, i)
    ensures OutExact(s'.arena[i], s'.meaning[i], s'.defs)
    ensures LitsOk(s'.meaning[i], s'.nVars, s'.defs, s'.inputs)
  {
    assert VarOk(s.arena, s.meaning, i);
    assert OutExact(s.arena[i], s.meaning[i], s.defs);
    assert LitsOk(s.meaning[i], s.nVars, s.defs, s.inputs);
    ExactStable(s.meaning, s'.meaning, i, s.arena[i].implicants);
  }

  /** No output is left without implicants. */
  lemma SomeImplicant(imps: seq<seq<nat>>, a: seq<nat>, b: seq<nat>, k: nat)
    requires HasAllImplicants(imps, a, b, k) && |a| >= 1 && |b| >= 1 && k < |a| + |b|
    ensures imps != []
  {
    if k > 0 {
      var i := if k <= |a| then k - 1 else |a| - 1;
      assert [a[i], b[k - 1 - i]] in imps;
    }
  }

  /** An output above the lowest has an implicant of two variables. */
  lemma NotSingle(imps: seq<seq<nat>>, a: seq<nat>, b: seq<nat>, k: nat)
    requires HasAllImplicants(imps, a, b, k) && |a| >= 1 && |b| >= 1 && 1 <= k < |a| + |b|
    ensures !Single(LazyVar(None, imps))
  {
    var i := if k <= |a| then k - 1 else |a| - 1;
    assert [a[i], b[k - 1 - i]] in imps;
  }

  lemma ImplicantsBelow(imp: seq<nat>, a: seq<nat>, b: seq<nat>, k: nat, n: nat)
    requires IsImplicant(imp, a, b, k)
    requires forall j | 0 <= j < |a| :: a[j] < n
    requires forall j | 0 <= j < |b| :: b[j] < n
    ensures imp != [] && forall i | i in imp :: i < n
  {
    if !(k < |b| && imp == [b[k]]) && !(k < |a| && imp == [a[k]]) {
      var i, j :| 0 <= i < |a| && 0 <= j < |b| && i + j + 1 == k && imp == [a[i], b[j]];
    }
  }

  lemma LitsOkConcat(la: seq<Lit>, lb: seq<Lit>, i: nat, j: nat, k: nat, nVars: nat, defs: Defs, inputs: set<nat>)
    requires LitsOk(MoreThan(la, i), nVars, defs, inputs) && LitsOk(MoreThan(lb, j), nVars, defs, inputs)
    ensures LitsOk(MoreThan(la + lb, k), nVars, defs, inputs)
  {
    assert forall l | l in la + lb :: l in la || l in lb;
  }

  lemma NewOutOk(s: Store, news: seq<seq<seq<nat>>>, la: seq<Lit>, lb: seq<Lit>,
                 a: seq<nat>, b: seq<nat>, first: nat, tag: Option<nat>, t: nat)
    requires OutsReady(s, news, la, lb, a, b, first) && t < |news|
    ensures var s' := WithOuts(s, news, la + lb, first, tag);
            && VarOk(s'.arena, s'.meaning, |s.arena| + t)
            && LitsOk(s'.meaning[|s.arena| + t], s'.nVars, s'.defs, s'.inputs)
  {
    var s' := WithOuts(s, news, la + lb, first, tag);
    var i := |s.arena| + t;
    assert Means(s'.meaning, a, la) && Means(s'.meaning, b, lb);
    UnaryAddition(s'.meaning, i, news[t], la, lb, a, b, first + t);
    forall imp | imp in news[t] ensures imp != [] && forall j | j in imp :: j < i {
      ImplicantsBelow(imp, a, b, first + t, i);
    }
    SomeImplicant(news[t], a, b, first + t);
    assert LitsOk(s.meaning[a[0]], s.nVars, s.defs, s.inputs);
    assert LitsOk(s.meaning[b[0]], s.nVars, s.defs, s.inputs);
    LitsOkConcat(la, lb, 0, 0, first + t, s.nVars, s.defs, s.inputs);
  }

  lemma WithOutsOk(s: Store, news: seq<seq<seq<nat>>>, la: seq<Lit>, lb: seq<Lit>,
                   a: seq<nat>, b: seq<nat>, first: nat, tag: Option<nat>)
    requires OutsReady(s, news, la, lb, a, b, first)
    ensures Ok(WithOuts(s, news, la + lb, first, tag)) && Grows(s, WithOuts(s, news, la + lb, first, tag))
  {
    var s' := WithOuts(s, news, la + lb, first, tag);
    WithOutsTops(s, news, la, lb, a, b, first, tag);
    forall i | 0 <= i < |s'.arena|
      ensures VarOk(s'.arena, s'.meaning, i)
      ensures OutExact(s'.arena[i], s'.meaning[i], s'.defs)
      ensures LitsOk(s'.meaning[i], s'.nVars, s'.defs, s'.inputs)
    {
      if i < |s.arena| {
        OldOutOk(s, s', i);
      } else {
        NewOutOk(s, news, la, lb, a, b, first, tag, i - |s.arena|);
      }
    }
  }

  /** The outputs behind `outs` are new, not asked for, and tagged if they are root outputs. */
  ghost predicate NewOuts(s: Store, s': Store, outs: seq<nat>, outs': seq<nat>, tag: Option<nat>) {
    && outs <= outs'
    && (forall k | |outs| <= k < |outs'| ::
          && |s.arena| <= outs'[k] < |s'.arena| && s'.arena[outs'[k]].out.None?
          && (1 <= k ==> !Single(s'.arena[outs'[k]]))
          && (tag.Some? ==> outs'[k] in s'.tops && s'.tops[outs'[k]] == tag.value))
    && (tag.None? ==> s'.tops == s.tops)
  }

  lemma WithOutsNew(s: Store, news: seq<seq<seq<nat>>>, la: seq<Lit>, lb: seq<Lit>,
                    a: seq<nat>, b: seq<nat>, outs: seq<nat>, outs': seq<nat>, tag: Option<nat>)
    requires OutsReady(s, news, la, lb, a, b, |outs|) && Means(s.meaning, outs, la + lb)
    requires outs' == outs + seq(|news|, t requires 0 <= t < |news| => |s.arena| + t)
    ensures var s' := WithOuts(s, news, la + lb, |outs|, tag);
            NewOuts(s, s', outs, outs', tag) && Means(s'.meaning, outs', la + lb)
  {
    hide Wanted, HasAllImplicants, Ok;
    OkSizes(s);
    var s' := WithOuts(s, news, la + lb, |outs|, tag);
    forall k | |outs| <= k < |outs'|
      ensures |s.arena| <= outs'[k] < |s'.arena| && s'.arena[outs'[k]].out.None?
      ensures 1 <= k ==> !Single(s'.arena[outs'[k]])
      ensures tag.Some? ==> outs'[k] in s'.tops && s'.tops[outs'[k]] == tag.value
      ensures outs'[k] < |s'.meaning| && s'.meaning[outs'[k]] == MoreThan(la + lb, k)
    {
      WithOutsAt(s, news, la, lb, a, b, |outs|, tag, k - |outs|);
      assert outs'[k] == |s.arena| + (k - |outs|);
    }
    hide WithOuts;
    WithOutsOld(s, news, la + lb, |outs|, tag);
  }

  lemma WithOutsOld(s: Store, news: seq<seq<seq<nat>>>, leaves: seq<Lit>, first: nat, tag: Option<nat>)
    ensures s.meaning <= WithOuts(s, news, leaves, first, tag).meaning
    ensures tag.None? ==> WithOuts(s, news, leaves, first, tag).tops == s.tops
  {
  }

  /** The t-th new output. */
  lemma WithOutsAt(s: Store, news: seq<seq<seq<nat>>>, la: seq<Lit>, lb: seq<Lit>, a: seq<nat>, b: seq<nat>, first: nat, tag: Option<nat>, t: nat)
    requires OutsReady(s, news, la, lb, a, b, first) && t < |news|
    ensures var s' := WithOuts(s, news, la + lb, first, tag); var id := |s.arena| + t;
            && id < |s'.arena| && s'.arena[id].out.None? && (1 <= first + t ==> !Single(s'.arena[id]))
            && (tag.Some? ==> id in s'.tops && s'.tops[id] == tag.value)
            && id < |s'.meaning| && s'.meaning[id] == MoreThan(la + lb, first + t)
  {
    hide Wanted, Ok, Means;
    OkSizes(s);
    if 1 <= first + t {
      NotSingle(news[t], a, b, first + t);
    }
  }

  lemma ImplicantNoTop(imp: seq<nat>, a: seq<nat>, b: seq<nat>, k: nat, tops: map<nat, nat>)
    requires IsImplicant(imp, a, b, k)
    requires NoTop(a, tops) && NoTop(b, tops)
    ensures NoTop(imp, tops)
  {
    assert forall j | 0 <= j < |a| :: a[j] in a;
    assert forall j | 0 <= j < |b| :: b[j] in b;
    if !(k < |b| && imp == [b[k]]) && !(k < |a| && imp == [a[k]]) {
      var i, j :| 0 <= i < |a| && 0 <= j < |b| && i + j + 1 == k && imp == [a[i], b[j]];
    }
  }

  lemma WithOutsTops(s: Store, news: seq<seq<seq<nat>>>, la: seq<Lit>, lb: seq<Lit>,
                     a: seq<nat>, b: seq<nat>, first: nat, tag: Option<nat>)
    requires OutsReady(s, news, la, lb, a, b, first)
    ensures TopsUnused(WithOuts(s, news, la + lb, first, tag).arena, WithOuts(s, news, la + lb, first, tag).tops)
  {
    var s' := WithOuts(s, news, la + lb, first, tag);
    forall i, imp | 0 <= i < |s'.arena| && imp in s'.arena[i].implicants ensures NoTop(imp, s'.tops) {
      if i < |s.arena| {
        assert VarOk(s.arena, s.meaning, i);
        assert NoTop(imp, s.tops);
      } else {
        var t := i - |s.arena|;
        ImplicantNoTop(imp, a, b, first + t, s.tops);
        ImplicantsBelow(imp, a, b, first + t, |s.arena|);
      }
    }
  }

  /**
   `increase_ua`: the implicants of the outputs `first..rhs` of a node over the outputs
   `a`, `b` of its children. `new_ua` is the case `first == 0`.
   */
  method Implicants(first: nat, a: seq<nat>, b: seq<nat>, rhs: nat) returns (news: seq<seq<seq<nat>>>)
    requires first <= rhs
    ensures |news| == rhs - first && Wanted(news, first, a, b)
    ensures forall t | 0 <= t < |news| :: HasAllImplicants(news[t], a, b, first + t)
  {
    news := seq(rhs - first, _ => []);
    news := AddSingles(news, first, b, rhs, a, b);
    ghost var rights := news;
    news := AddSingles(news, first, a, rhs, a, b);
    var maxi := Min(rhs, |a|);
    ghost var singles := news;
    for i := 1 to maxi + 1
      invariant |news| == rhs - first && Keeps(singles, news)
      invariant Wanted(news, first, a, b)
      invariant forall i' | 0 <= i' < i - 1 :: HasPairs(news, first, a, b, i', rhs)
    {
      ghost var before := news;
      news := AddPairs(news, first, a, b, rhs, i);
      forall i' | 0 <= i' < i - 1 ensures HasPairs(news, first, a, b, i', rhs) {
        assert HasPairs(before, first, a, b, i', rhs);
      }
    }
    forall t | 0 <= t < |news| ensures HasAllImplicants(news[t], a, b, first + t) {
      forall i, j | 0 <= i < |a| && 0 <= j < |b| && i + j + 1 == first + t ensures [a[i], b[j]] in news[t] {
        assert HasPairs(news, first, a, b, i, rhs);
      }
    }
  }

  ghost predicate Keeps(before: seq<seq<seq<nat>>>, after: seq<seq<seq<nat>>>) {
    |before| == |after| && forall t, imp | 0 <= t < |before| && imp in before[t] :: imp in after[t]
  }

  /** A child output is an implicant of the parent output with the same index. */
  method AddSingles(news: seq<seq<seq<nat>>>, first: nat, x: seq<nat>, rhs: nat, ghost a: seq<nat>, ghost b: seq<nat>)
      returns (r: seq<seq<seq<nat>>>)
    requires first <= rhs && |news| == rhs - first && (x == a || x == b)
    requires Wanted(news, first, a, b)
    ensures Keeps(news, r) && Wanted(r, first, a, b) && HasSingles(r, first, x, rhs)
  {
    r := news;
    var maxj := Min(rhs, |x|);
    var j := first;
    while j < maxj
      invariant first <= j && Keeps(news, r) && Wanted(r, first, a, b)
      invariant HasSingles(r, first, x, j)
    {
      r := AddImplicant(r, j - first, [x[j]]);
      j := j + 1;
    }
  }

  /** One round of the double loop: output `i` of the left child with those of the right. */
  method AddPairs(news: seq<seq<seq<nat>>>, first: nat, a: seq<nat>, b: seq<nat>, rhs: nat, i: nat)
      returns (r: seq<seq<seq<nat>>>)
    requires 1 <= i <= |a| && i <= rhs && first <= rhs && |news| == rhs - first
    requires Wanted(news, first, a, b)
    ensures Keeps(news, r) && Wanted(r, first, a, b) && HasPairs(r, first, a, b, i - 1, rhs)
  {
    hide Wanted, HasPairs, Keeps;
    r := news;
    var minj := if first - i + 1 > 1 then first - i + 1 else 1;
    NoPairs(news, first, a, b, i, minj);
    var maxj := Min(rhs - i, |b|);
    var j := minj;
    while j <= maxj
      invariant minj <= j && |r| == |news| && Keeps(news, r) && Wanted(r, first, a, b)
      invariant HasPairs(r, first, a, b, i - 1, j - 1)
    {
      var imp := [a[i - 1], b[j - 1]];
      AddedPair(news, r, first, a, b, i, j);
      r := AddImplicant(r, i + j - 1 - first, imp);
      j := j + 1;
    }
    PairsEnd(r, first, a, b, rhs, i, j);
  }

  lemma NoPairs(news: seq<seq<seq<nat>>>, first: nat, a: seq<nat>, b: seq<nat>, i: nat, minj: nat)
    requires 1 <= i <= |a| && minj == if first - i + 1 > 1 then first - i + 1 else 1
    ensures Keeps(news, news) && HasPairs(news, first, a, b, i - 1, minj - 1)
  {
  }

  lemma AddedPair(news: seq<seq<seq<nat>>>, r: seq<seq<seq<nat>>>, first: nat, a: seq<nat>, b: seq<nat>, i: nat, j: nat)
    requires 1 <= i <= |a| && 1 <= j <= |b| && first <= i + j - 1 < first + |r| && |r| == |news|
    requires Keeps(news, r) && Wanted(r, first, a, b) && HasPairs(r, first, a, b, i - 1, j - 1)
    ensures var r' := AddImplicant(r, i + j - 1 - first, [a[i - 1], b[j - 1]]);
            Keeps(news, r') && Wanted(r', first, a, b) && HasPairs(r', first, a, b, i - 1, j)
  {
    var r' := AddImplicant(r, i + j - 1 - first, [a[i - 1], b[j - 1]]);
    forall j0 | 0 <= j0 < |b| && j0 < j && first <= i + j0 < first + |r'| ensures [a[i - 1], b[j0]] in r'[i + j0 - first] {
      if j0 < j - 1 {
        assert [a[i - 1], b[j0]] in r[i - 1 + j0 + 1 - first];
      }
    }
  }

  lemma PairsEnd(r: seq<seq<seq<nat>>>, first: nat, a: seq<nat>, b: seq<nat>, rhs: nat, i: nat, j: nat)
    requires 1 <= i <= |a| && i <= rhs && first <= rhs && |r| == rhs - first && 1 <= j
    requires HasPairs(r, first, a, b, i - 1, j - 1) && j > Min(rhs - i, |b|)
    ensures HasPairs(r, first, a, b, i - 1, rhs)
  {
  }

  ghost function QueueLeaves(queue: seq<Tree>): (r: seq<Lit>) {
    if queue == [] then [] else Leaves(queue[0]) + QueueLeaves(queue[1..])
  }

  ghost predicate QueueOk(queue: seq<Tree>, meaning: Meanings, bound: nat) {
    forall i | 0 <= i < |queue| ::
      TreeOk(queue[i], meaning) && |Outs(queue[i])| == Min(bound + 1, Inputs(queue[i]))
  }

  lemma {:induction false} QueueLeavesConcat(queue: seq<Tree>, t: Tree)
    ensures QueueLeaves(queue + [t]) == QueueLeaves(queue) + Leaves(t)
  {
    if queue == [] {
      assert QueueLeaves([t]) == Leaves(t) + QueueLeaves([]);
    } else {
      assert (queue + [t])[1..] == queue[1..] + [t];
      QueueLeavesConcat(queue[1..], t);
    }
  }

  lemma QueueLeavesFront(queue: seq<Tree>)
    requires |queue| >= 2
    ensures QueueLeaves(queue) == Leaves(queue[0]) + Leaves(queue[1]) + QueueLeaves(queue[2..])
  {
    assert queue[1..][1..] == queue[2..];
  }

  lemma QueueSingle(queue: seq<Tree>)
    requires |queue| == 1
    ensures QueueLeaves(queue) == Leaves(queue[0])
  {
    assert queue[1..] == [];
  }

  lemma QueueRotate(queue: seq<Tree>, node: Tree)
    requires |queue| >= 2 && Leaves(node) == Leaves(queue[0]) + Leaves(queue[1])
    ensures multiset(QueueLeaves(queue[2..] + [node])) == multiset(QueueLeaves(queue))
  {
    QueueLeavesFront(queue);
    QueueLeavesConcat(queue[2..], node);
  }

  lemma QueuePush(queue: seq<Tree>, t: Tree, meaning: Meanings, meaning': Meanings, bound: nat)
    requires QueueOk(queue, meaning, bound) && meaning <= meaning'
    requires TreeOk(t, meaning') && |Outs(t)| == Min(bound + 1, Inputs(t))
    ensures QueueOk(queue + [t], meaning', bound)
  {
    forall i | 0 <= i < |queue| ensures TreeOk(queue[i], meaning') {
      TreeStable(queue[i], meaning, meaning');
    }
  }

  /** The literal says "at most k of these" in both readings. */
  ghost predicate LitAtMost(lit: Lit, leaves: seq<Lit>, k: nat, defs: Defs, clauses: set<Clause>) {
    && (forall e: Assignment | Respects(e, defs) :: True(e, lit) <==> Count(e, leaves) <= k)
    && (forall m: Assignment | Sat(m, clauses) :: True(m, lit) ==> Count(m, leaves) <= k)
  }

  /** What one `atMost` call on a counter may do to the rest of the state. */
  ghost predicate Asked(s: Store, s': Store, card: nat) {
    && s.meaning <= s'.meaning && |s.arena| <= |s'.arena| && TopsGrow(s.tops, s'.tops, |s.arena|)
    && (forall j | j in s.tops && s.tops[j] != card && j < |s.arena| :: s'.arena[j] == s.arena[j])
    && s'.inputs == s.inputs && s'.nVars >= s.nVars
    && Extends(s.defs, s'.defs) && (forall v | v in s'.defs && v !in s.defs :: v > s.nVars)
    && Definitional(s.clauses, s'.clauses, s'.defs)
    && NewForced(s.defs, s'.defs, s'.clauses)
  }

  lemma GetReady(t: Tree, k: nat, s0: Store, s: Store)
    requires Grows(s0, s) && ForcedBelow(s0, |s0.arena|) && TreeOk(t, s.meaning) && Ok(s) && k < |Outs(t)|
    ensures Outs(t)[k] < |s.arena| && ForcedBelow(s, |s.arena|) && ForcedBelow(s, Outs(t)[k] + 1)
  {
    TreeFacts(t, s.meaning);
  }

  lemma AskedOne(t: Tree, k: nat, s0: Store, s: Store, s': Store, card: nat, l: Lit)
    requires Ok(s) && Ok(s') && Grows(s0, s) && ForcedBelow(s, |s.arena|)
    requires TreeOk(t, s.meaning) && Rooted(t, s.tops, card) && k < |Outs(t)| && Outs(t)[k] < |s.arena|
    requires Emits(s, s', Outs(t)[k] + 1) && ForcedBelow(s', Outs(t)[k] + 1)
    requires NewForced(s.defs, s'.defs, s'.clauses) && TopsKept(s, s', {Outs(t)[k]})
    requires s'.arena[Outs(t)[k]].out == Some(l)
    ensures ForcedBelow(s', |s'.arena|) && TreeOk(t, s'.meaning) && Rooted(t, s'.tops, card)
    ensures Asked(s0, s', card)
    ensures LitAtMost(Neg(l), Leaves(t), k, s'.defs, s'.clauses)
    ensures Unasked(s, t, k) ==> Unasked(s', t, k + 1)
  {
    hide Ok, TreeOk, ForcedBelow, Unasked;
    var id := Outs(t)[k];
    ForcedMonotone(s, s', id + 1, |s.arena|);
    OutAtMost(t, k, s', l);
    UnaskedAfter(t, k, s, s', card);
    RootKept(t, k, s, s', card);
  }

  lemma RootKept(t: Tree, k: nat, s: Store, s': Store, card: nat)
    requires Rooted(t, s.tops, card) && k < |Outs(t)| && TopsKept(s, s', {Outs(t)[k]})
    ensures forall j | j in s.tops && s.tops[j] != card && j < |s.arena| :: s'.arena[j] == s.arena[j]
  {
    assert Outs(t)[k] in Outs(t);
  }

  lemma OutAtMost(t: Tree, k: nat, s: Store, l: Lit)
    requires Ok(s) && TreeOk(t, s.meaning) && k < |Outs(t)| && Outs(t)[k] < |s.arena|
    requires ForcedBelow(s, |s.arena|) && s.arena[Outs(t)[k]].out == Some(l)
    ensures LitAtMost(Neg(l), Leaves(t), k, s.defs, s.clauses)
  {
    hide Ok, ForcedBelow;
    TreeFacts(t, s.meaning);
    OkOut(s, Outs(t)[k]);
  }

  lemma OkOut(s: Store, id: nat)
    requires Ok(s) && ForcedBelow(s, |s.arena|) && id < |s.arena|
    ensures id < |s.meaning| && OutExact(s.arena[id], s.meaning[id], s.defs) && Forced(s.arena[id], s.meaning[id], s.clauses)
  {
    hide VarOk, OutExact, Forced, LitsOk, TopsUnused, WfDefs;
  }

  lemma UnaskedAfter(t: Tree, k: nat, s: Store, s': Store, card: nat)
    requires TreeOk(t, s.meaning) && Rooted(t, s.tops, card) && k < |Outs(t)|
    requires TopsKept(s, s', {Outs(t)[k]})
    ensures Unasked(s, t, k) ==> Unasked(s', t, k + 1)
  {
    TreeFacts(t, s.meaning);
    forall j | Unasked(s, t, k) && k + 1 <= j < |Outs(t)|
      ensures Outs(t)[j] < |s'.arena| && s'.arena[Outs(t)[j]] == s.arena[Outs(t)[j]]
    {
      assert t.Node? && t.outs[j] in t.outs;
      assert s.meaning[t.outs[j]] != s.meaning[t.outs[k]];
    }
  }

  lemma AskedNothing(s: Store, card: nat)
    ensures Asked(s, s, card)
  {
  }

  class LazyStore {
    const solver: SatSolver
    var arena: seq<LazyVar>
    ghost var meaning: Meanings
    ghost var tops: map<nat, nat>

    ghost function State(): (s: Store)
      reads this, solver
    {
      Store(arena, meaning, tops, solver.nVars, solver.clauses, solver.defs, solver.inputs)
    }

    constructor (solver: SatSolver)
      requires solver.Valid()
      ensures this.solver == solver && Ok(State()) && arena == [] && tops == map[]
    {
      this.solver := solver;
      arena, meaning, tops := [], [], map[];
    }

    /** `LazyVariable::get`. */
    method Get(id: nat) returns (lit: Lit)
      requires Ok(State()) && id < |arena| && ForcedBelow(State(), id + 1)
      modifies this, solver
      ensures Ok(State()) && Emits(old(State()), State(), id + 1) && ForcedBelow(State(), id + 1)
      ensures arena[id].out == Some(lit)
      ensures NewForced(old(solver.defs), solver.defs, solver.clauses)
      ensures TopsKept(old(State()), State(), {id})
      ensures old(arena[id]).out.None? && !Single(old(arena[id])) ==>
                lit == Lit(old(solver.nVars) + 1, true) && IsCounter(lit.v, solver.defs)
      decreases id, 2
    {
      var x := arena[id];
      assert VarOk(arena, meaning, id);
      if x.out.Some? {
        return x.out.value;
      }
      if Single(x) {
        lit := Link(id);
        return;
      }
      lit := Emit(id);
    }

    /** A variable with one implicant of one variable is that variable. */
    method Link(id: nat) returns (lit: Lit)
      requires Ok(State()) && id < |arena| && ForcedBelow(State(), id + 1) && arena[id].out.None?
      requires Single(arena[id])
      modifies this, solver
      ensures Ok(State()) && Emits(old(State()), State(), id + 1) && ForcedBelow(State(), id + 1)
      ensures arena[id].out == Some(lit)
      ensures NewForced(old(solver.defs), solver.defs, solver.clauses)
      ensures TopsKept(old(State()), State(), {id})
      decreases id, 1
    {
      hide Ok, ForcedBelow, NewForced, Emits;
      var x := arena[id];
      var c := x.implicants[0][0];
      ghost var s0 := State();
      OkImplicant(s0, id, x.implicants[0]);
      ForcedWeaken(s0, c + 1, id + 1);
      lit := Get(c);
      ghost var s := State();
      EmitsFacts(s0, s, c + 1);
      ForcedMonotone(s0, s, c + 1, id + 1);
      arena := arena[id := x.(out := Some(lit))];
      LinkOk(s, State(), id, lit);
      EmitsWeaken(s0, s, c + 1, id + 1);
      EmitsTransitive(s0, s, State(), id + 1);
    }

    method Emit(id: nat) returns (lit: Lit)
      requires Ok(State()) && id < |arena| && ForcedBelow(State(), id + 1) && arena[id].out.None?
      modifies this, solver
      ensures Ok(State()) && Emits(old(State()), State(), id + 1) && ForcedBelow(State(), id + 1)
      ensures arena[id].out == Some(lit)
      ensures NewForced(old(solver.defs), solver.defs, solver.clauses)
      ensures TopsKept(old(State()), State(), {id})
      ensures lit == Lit(old(solver.nVars) + 1, true)
      ensures IsCounter(lit.v, solver.defs)
      decreases id, 1
    {
      hide Ok, ForcedBelow, Emits, NewForced;
      var x := arena[id];
      ghost var s0 := State();
      OkSizes(s0);
      FreshOk(s0, id);
      var v := solver.NewVar();
      lit := Lit(v, true);
      solver.defs := solver.defs[v := meaning[id]];
      arena := arena[id := x.(out := Some(lit))];
      ghost var s1 := State();
      assert s1 == WithFresh(s0, id);
      EmitsReflexive(s1, id);
      for n := 0 to |x.implicants|
        invariant Ok(State()) && Emits(s1, State(), id) && ForcedBelow(State(), id)
        invariant |arena| == |s1.arena| && arena[id] == s1.arena[id] && meaning == s1.meaning
        invariant tops == s1.tops && TopsKept(s1, State(), {})
        invariant NewForced(s1.defs, solver.defs, solver.clauses)
        invariant ImplicantsForce(x.implicants[..n], meaning, solver.clauses, lit)
      {
        ghost var s2 := State();
        EmitClause(id, x.implicants[n]);
        EmitsTransitive(s1, s2, State(), id);
        EmitsFacts(s1, State(), id);
        EmitsFacts(s2, State(), id);
        ImplicantsForceStep(x.implicants, n, meaning, s2.clauses, solver.clauses, lit);
      }
      assert x.implicants[..|x.implicants|] == x.implicants;
      FinishEmit(s0, State(), id, lit);
    }

    method EmitClause(id: nat, imp: seq<nat>)
      requires Ok(State()) && id < |arena| && ForcedBelow(State(), id)
      requires imp in arena[id].implicants && arena[id].out.Some?
      modifies this, solver
      ensures Ok(State()) && Emits(old(State()), State(), id) && ForcedBelow(State(), id)
      ensures NewForced(old(solver.defs), solver.defs, solver.clauses)
      ensures ImplicantsForce([imp], old(meaning), solver.clauses, old(arena[id].out.value))
      ensures TopsKept(old(State()), State(), {})
      decreases id, 0
    {
      hide Ok, ForcedBelow, NewForced;
      ghost var s0 := State();
      var out := arena[id].out.value;
      OkImplicant(s0, id, imp);
      EmitsReflexive(s0, id);
      var clause := [];
      for i := 0 to |imp|
        invariant Ok(State()) && Emits(s0, State(), id) && ForcedBelow(State(), id)
        invariant NewForced(s0.defs, solver.defs, solver.clauses)
        invariant |clause| == i && TopsKept(s0, State(), {})
        invariant forall k | 0 <= k < i :: arena[imp[k]].out == Some(Neg(clause[k]))
      {
        ghost var s1 := State();
        ForcedWeaken(s1, imp[i] + 1, id);
        var l := Get(imp[i]);
        EmitsWeaken(s1, State(), imp[i] + 1, id);
        EmitsTransitive(s0, s1, State(), id);
        ForcedMonotone(s1, State(), imp[i] + 1, id);
        clause := clause + [Neg(l)];
      }
      ghost var s2 := State();
      solver.AddClause(clause + [out]);
      AddImplicantClause(s2, State(), id, imp, clause, out);
      EmitsTransitive(s0, s2, State(), id);
    }

    /** The part of `increase_ua` that works on the arena. */
    method IncreaseUa(outs: seq<nat>, a: seq<nat>, b: seq<nat>, rhs: nat,
                      ghost la: seq<Lit>, ghost lb: seq<Lit>, ghost tag: Option<nat>) returns (outs': seq<nat>)
      requires Ok(State()) && Means(meaning, outs, la + lb)
      requires Means(meaning, a, la) && Means(meaning, b, lb)
      requires 1 <= |a| <= |la| && 1 <= |b| <= |lb| && |outs| <= rhs <= |la| + |lb|
      requires |a| >= Min(rhs, |la|) && |b| >= Min(rhs, |lb|)
      requires NoTop(a, tops) && NoTop(b, tops)
      modifies this
      ensures Ok(State()) && Grows(old(State()), State())
      ensures |outs'| == rhs && outs <= outs' && Means(meaning, outs', la + lb)
      ensures NewOuts(old(State()), State(), outs, outs', tag)
    {
      hide Ok, Grows, Wanted, HasAllImplicants, Means, NewOuts;
      var first := |outs|;
      var news := Implicants(first, a, b, rhs);
      ghost var s := State();
      OkSizes(s);
      var base := |arena|;
      outs' := outs + seq(|news|, t requires 0 <= t < |news| => base + t);
      WithOutsOk(s, news, la, lb, a, b, first, tag);
      WithOutsNew(s, news, la, lb, a, b, outs, outs', tag);
      arena := arena + seq(|news|, t requires 0 <= t < |news| => LazyVar(None, news[t]));
      meaning := meaning + seq(|news|, t requires 0 <= t < |news| => MoreThan(la + lb, first + t));
      if tag.Some? {
        tops := TagFrom(tops, base, |news|, tag.value);
      }
      assert State() == WithOuts(s, news, la + lb, first, tag);
    }

    /** A parent of two nodes with outputs up to `bound`; `tag` marks a root. */
    method NewNode(l: Tree, r: Tree, bound: nat, ghost tag: Option<nat>) returns (t: Tree)
      requires Ok(State()) && TreeOk(l, meaning) && TreeOk(r, meaning)
      requires |Outs(l)| >= Min(bound + 1, Inputs(l)) && |Outs(r)| >= Min(bound + 1, Inputs(r))
      requires Inner(l, tops) && Inner(r, tops)
      modifies this
      ensures Ok(State()) && Grows(old(State()), State())
      ensures TreeOk(t, meaning) && Leaves(t) == Leaves(l) + Leaves(r)
      ensures |Outs(t)| == Min(bound + 1, Inputs(t))
      ensures if tag.None? then Inner(t, tops) else Rooted(t, tops, tag.value)
      ensures tag.None? ==> tops == old(tops)
      ensures Unasked(State(), t, 1)
    {
      hide Ok, Grows, Means;
      TreeFacts(l, meaning);
      TreeFacts(r, meaning);
      ghost var s := State();
      OkSizes(s);
      InnerOuts(l, tops);
      InnerOuts(r, tops);
      var n := Inputs(l) + Inputs(r);
      var kmin := Min(bound + 1, n);
      MeansNone(meaning, Leaves(l) + Leaves(r));
      var outs := IncreaseUa([], Outs(l), Outs(r), kmin, Leaves(l), Leaves(r), tag);
      t := Node(l, r, outs, n);
      GrowsMeaning(s, State());
      NodeOk(l, r, outs, s.meaning, meaning);
      InnerStable(l, s, State());
      InnerStable(r, s, State());
      OutsInner(s, State(), outs, tag);
    }

    method NewLeaf(lit: Lit) returns (t: Tree)
      requires Ok(State()) && lit.v <= solver.nVars && Soft(Neg(lit), solver.defs, solver.inputs)
      modifies this
      ensures Ok(State()) && Grows(old(State()), State())
      ensures TreeOk(t, meaning) && t.Leaf? && t.lit == lit && t.id == old(|arena|)
      ensures tops == old(tops)
    {
      ghost var s := State();
      t := Leaf(|arena|, lit);
      arena := arena + [LazyVar(Some(lit), [])];
      meaning := meaning + [MoreThan([lit], 0)];
      forall i | 0 <= i < |s.arena|
        ensures VarOk(arena, meaning, i)
        ensures OutExact(arena[i], meaning[i], solver.defs)
        ensures LitsOk(meaning[i], solver.nVars, solver.defs, solver.inputs)
      {
        OldOutOk(s, State(), i);
      }
    }

    /** The constructor of `CardIncremental_Lazy`: leaves in a queue, joined from the front. */
    method Build(lits: seq<Lit>, bound: nat, ghost card: nat) returns (t: Tree)
      requires Ok(State()) && lits != []
      requires forall l | l in lits :: l.v <= solver.nVars && Soft(Neg(l), solver.defs, solver.inputs)
      modifies this
      ensures Ok(State()) && Grows(old(State()), State())
      ensures TreeOk(t, meaning) && multiset(Leaves(t)) == multiset(lits)
      ensures |Outs(t)| == Min(bound + 1, |lits|)
      ensures Rooted(t, tops, card) && Unasked(State(), t, 1)
    {
      hide Ok, Grows, TreeOk, Soft, QueueLeaves, Leaves, Inner, Rooted;
      var queue := MakeLeaves(lits, bound);
      ghost var s0 := old(State());
      SingleLeaf(queue, State(), card);
      while |queue| > 1
        invariant Ok(State()) && Grows(s0, State())
        invariant queue != [] && QueueOk(queue, meaning, bound)
        invariant multiset(QueueLeaves(queue)) == multiset(lits)
        invariant |queue| > 1 ==> QueueInner(queue, tops)
        invariant |queue| == 1 ==> Rooted(queue[0], tops, card) && Unasked(State(), queue[0], 1)
        decreases |queue|
      {
        ghost var s1 := State();
        var node := NewNode(queue[0], queue[1], bound, if |queue| == 2 then Some(card) else None);
        GrowsTransitive(s0, s1, State());
        GrowsMeaning(s1, State());
        QueueRotate(queue, node);
        QueuePush(queue[2..], node, s1.meaning, meaning, bound);
        queue := queue[2..] + [node];
      }
      t := queue[0];
      QueueSingle(queue);
      TreeFacts(t, meaning);
      assert |multiset(Leaves(t))| == |multiset(lits)|;
    }

    method MakeLeaves(lits: seq<Lit>, ghost bound: nat) returns (queue: seq<Tree>)
      requires Ok(State())
      requires forall l | l in lits :: l.v <= solver.nVars && Soft(Neg(l), solver.defs, solver.inputs)
      modifies this
      ensures Ok(State()) && Grows(old(State()), State())
      ensures |queue| == |lits| && QueueOk(queue, meaning, bound) && QueueLeaves(queue) == lits
      ensures QueueInner(queue, tops) && forall i | 0 <= i < |queue| :: queue[i].Leaf?
    {
      hide Ok, Grows, TreeOk, Soft;
      queue := [];
      ghost var s0 := State();
      GrowsReflexive(s0);
      for i := 0 to |lits|
        invariant Ok(State()) && Grows(s0, State()) && tops == s0.tops
        invariant |queue| == i && QueueOk(queue, meaning, bound)
        invariant QueueLeaves(queue) == lits[..i]
        invariant QueueInner(queue, tops) && forall i | 0 <= i < |queue| :: queue[i].Leaf?
      {
        ghost var s1 := State();
        OkTops(s1);
        var leaf := NewLeaf(lits[i]);
        GrowsTransitive(s0, s1, State());
        GrowsMeaning(s1, State());
        QueuePush(queue, leaf, s1.meaning, meaning, bound);
        QueueLeavesConcat(queue, leaf);
        queue := queue + [leaf];
      }
      assert lits[..|lits|] == lits;
    }

    /** `increase`: enlarge a subtree to the outputs that `newBound` needs. */
    method Increase(t: Tree, newBound: nat, ghost tag: Option<nat>) returns (t': Tree)
      requires Ok(State()) && TreeOk(t, meaning)
      requires if tag.None? then Inner(t, tops) else Rooted(t, tops, tag.value)
      modifies this
      ensures Ok(State()) && Grows(old(State()), State())
      ensures TreeOk(t', meaning) && Leaves(t') == Leaves(t) && Inputs(t') == Inputs(t)
      ensures Outs(t) <= Outs(t') && |Outs(t')| >= Min(newBound + 1, Inputs(t))
      ensures if tag.None? then Inner(t', tops) else Rooted(t', tops, tag.value)
      ensures tag.None? ==> tops == old(tops)
      ensures forall k | 1 <= k && Unasked(old(State()), t, k) :: Unasked(State(), t', k)
      decreases t
    {
      hide Ok, Grows, TreeOk, Means, Inner, Rooted, NoTop, NewOuts, Unasked;
      GrowsReflexive(State());
      TreeFacts(t, meaning);
      var kmin := Min(newBound + 1, Inputs(t));
      if |Outs(t)| >= kmin {
        return t;
      }
      ghost var s0 := State();
      ChildrenOk(t, s0.meaning);
      ChildrenInner(t, tops, tag);
      var l := Increase(t.left, newBound, None);
      ghost var s1 := State();
      GrowsMeaning(s0, s1);
      TreeStable(t.right, s0.meaning, s1.meaning);
      var r := Increase(t.right, newBound, None);
      ghost var s2 := State();
      GrowsMeaning(s1, s2);
      TreeStable(l, s1.meaning, s2.meaning);
      InnerOuts(l, tops);
      InnerOuts(r, tops);
      GrowsTransitive(s0, s1, s2);
      t' := IncreaseRoot(t, l, r, kmin, tag, s0);
      GrowsTransitive(s0, s2, State());
    }

    method IncreaseRoot(t: Tree, l: Tree, r: Tree, kmin: nat, ghost tag: Option<nat>, ghost s0: Store) returns (t': Tree)
      requires Ok(State()) && Ok(s0) && Grows(s0, State()) && tops == s0.tops
      requires t.Node? && TreeOk(t, s0.meaning) && TreeOk(l, meaning) && TreeOk(r, meaning)
      requires if tag.None? then Inner(t, s0.tops) else Rooted(t, s0.tops, tag.value)
      requires Inner(l, tops) && Inner(r, tops) && NoTop(Outs(l), tops) && NoTop(Outs(r), tops)
      requires Leaves(l) == Leaves(t.left) && Leaves(r) == Leaves(t.right)
      requires Inputs(l) == Inputs(t.left) && Inputs(r) == Inputs(t.right)
      requires |t.outs| <= kmin <= t.inputs
      requires |Outs(l)| >= Min(kmin, Inputs(l)) && |Outs(r)| >= Min(kmin, Inputs(r))
      modifies this
      ensures Ok(State()) && Grows(old(State()), State())
      ensures TreeOk(t', meaning) && Leaves(t') == Leaves(t) && Inputs(t') == Inputs(t)
      ensures Outs(t) <= Outs(t') && |Outs(t')| == kmin
      ensures if tag.None? then Inner(t', tops) else Rooted(t', tops, tag.value)
      ensures tag.None? ==> tops == s0.tops
      ensures forall k | 1 <= k && Unasked(s0, t, k) :: Unasked(State(), t', k)
    {
      hide Ok, Grows, TreeOk, Means, Inner, Rooted, NoTop, NewOuts, Unasked;
      ghost var s2 := State();
      GrowsMeaning(s0, s2);
      TreeFacts(l, meaning);
      TreeFacts(r, meaning);
      TreeStable(t, s0.meaning, meaning);
      ChildrenOk(t, meaning);
      var outs := IncreaseUa(t.outs, Outs(l), Outs(r), kmin, Leaves(l), Leaves(r), tag);
      t' := Node(l, r, outs, t.inputs);
      IncreasedNode(t, t', s0, s2, State(), tag);
    }

    /**
     `atMost`: None when the bound is not a constraint, otherwise the literal "at most k"
     and the tree, enlarged if it had to be.
     */
    method AtMost(t: Tree, k: nat, ghost card: nat) returns (lit: Option<Lit>, t': Tree)
      requires Ok(State()) && ForcedBelow(State(), |arena|)
      requires TreeOk(t, meaning) && Rooted(t, tops, card)
      modifies this, solver
      ensures Ok(State()) && ForcedBelow(State(), |arena|)
      ensures TreeOk(t', meaning) && Rooted(t', tops, card) && Leaves(t') == Leaves(t)
      ensures lit.None? <==> k >= |Leaves(t)|
      ensures Asked(old(State()), State(), card)
      ensures lit.Some? ==> LitAtMost(lit.value, Leaves(t), k, solver.defs, solver.clauses)
      ensures lit.Some? && 1 <= k && Unasked(old(State()), t, k) ==>
                && lit.value == Lit(old(solver.nVars) + 1, false) && IsCounter(lit.value.v, solver.defs)
                && Unasked(State(), t', k + 1)
      ensures lit.None? ==> t' == t && State() == old(State())
    {
      hide Ok, Grows, TreeOk, ForcedBelow, Emits, Rooted;
      TreeFacts(t, meaning);
      ghost var s0 := State();
      if k >= Inputs(t) {
        AskedNothing(s0, card);
        return None, t;
      }
      t' := t;
      GrowsReflexive(s0);
      if k >= |Outs(t)| {
        t' := Increase(t, k, Some(card));
      }
      TreeFacts(t', meaning);
      ghost var s := State();
      var id := Outs(t')[k];
      GetReady(t', k, s0, s);
      var l := Get(id);
      AskedOne(t', k, s0, s, State(), card, l);
      lit := Some(Neg(l));
    }
  }
}
