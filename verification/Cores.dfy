/**
 Working on unsatisfiable cores and cliques with the solver as oracle:
 `oneMinimize` and `reduceCliqueV2`.
 */
module Cores {
  import opened Cnf
  import opened Solver
  import opened Objective

  /** The order of `oneMinimize`: heavier first, then by variable. */
  predicate Before(poids: map<nat, int>, a: Lit, b: Lit) {
    WeightOf(poids, a) > WeightOf(poids, b) || (WeightOf(poids, a) == WeightOf(poids, b) && a.v < b.v)
  }

  predicate SortedBefore(poids: map<nat, int>, s: seq<Lit>) {
    forall i, j | 0 <= i < j < |s| :: !Before(poids, s[j], s[i])
  }

  function Insert(poids: map<nat, int>, x: Lit, s: seq<Lit>): (r: seq<Lit>)
    ensures multiset(r) == multiset(s) + multiset{x}
  {
    if s == [] then [x]
    else if !Before(poids, s[0], x) then [x] + s
    else
      assert s == [s[0]] + s[1..];
      [s[0]] + Insert(poids, x, s[1..])
  }

  lemma {:induction false} InsertSorted(poids: map<nat, int>, x: Lit, s: seq<Lit>)
    requires SortedBefore(poids, s)
    ensures SortedBefore(poids, Insert(poids, x, s))
  {
    if s != [] && Before(poids, s[0], x) {
      InsertSorted(poids, x, s[1..]);
      var r := Insert(poids, x, s[1..]);
      forall i | 0 <= i < |r| ensures !Before(poids, r[i], s[0]) {
        assert r[i] in multiset(r);
        assert r[i] == x || r[i] in s[1..];
      }
    }
  }

  function SortByWeight(poids: map<nat, int>, s: seq<Lit>): (r: seq<Lit>)
    ensures multiset(r) == multiset(s) && SortedBefore(poids, r)
  {
    if s == [] then []
    else
      assert s == [s[0]] + s[1..];
      var r := SortByWeight(poids, s[1..]);
      InsertSorted(poids, s[0], r);
      Insert(poids, s[0], r)
  }

  /** Every literal is needed. */
  ghost predicate Minimal(clauses: set<Clause>, core: seq<Lit>) {
    forall l | l in core :: !Unsat(clauses, ToSet(core) - {l})
  }

  /** The positions from i on are needed. */
  ghost predicate NeededFrom(clauses: set<Clause>, core: seq<Lit>, i: nat) {
    forall k | i <= k < |core| :: !Unsat(clauses, ToSet(core) - {core[k]})
  }

  lemma UnsatSubset(clauses: set<Clause>, a: set<Lit>, b: set<Lit>)
    requires Unsat(clauses, a) && a <= b
    ensures Unsat(clauses, b)
  {
  }

  lemma DropLast(core: seq<Lit>)
    requires core != [] && Distinct(core)
    ensures ToSet(core[..|core| - 1]) == ToSet(core) - {core[|core| - 1]} && Distinct(core[..|core| - 1])
  {
    var n := |core| - 1;
    forall l ensures l in core[..n] <==> l in core && l != core[n] {
      if l in core && l != core[n] {
        var k :| 0 <= k < |core| && core[k] == l;
        assert core[..n][k] == l;
      }
    }
  }

  /** Deletion by moving the last literal into the gap; needed literals stay needed in a smaller core. */
  lemma DeleteAt(clauses: set<Clause>, core: seq<Lit>, i: nat, core': seq<Lit>)
    requires i < |core| && Distinct(core) && core' == core[i := core[|core| - 1]][..|core| - 1]
    ensures Distinct(core') && ToSet(core') == ToSet(core) - {core[i]}
    ensures NeededFrom(clauses, core, i + 1) ==> NeededFrom(clauses, core', i)
  {
    var n := |core| - 1;
    assert forall k | 0 <= k < n :: core'[k] == if k == i then core[n] else core[k];
    forall l ensures l in core' <==> l in core && l != core[i] {
      if l in core && l != core[i] {
        var k :| 0 <= k < |core| && core[k] == l;
        assert core'[if k == n then i else k] == l;
      }
    }
    forall k | NeededFrom(clauses, core, i + 1) && i <= k < n ensures !Unsat(clauses, ToSet(core') - {core'[k]}) {
      var j := if k == i then n else k;
      assert !Unsat(clauses, ToSet(core) - {core[j]});
      if Unsat(clauses, ToSet(core') - {core'[k]}) {
        UnsatSubset(clauses, ToSet(core') - {core'[k]}, ToSet(core) - {core[j]});
      }
    }
  }

  /**
   `oneMinimize`: drop literals whose removal keeps the core a core. Unless an answer was unknown
   or the clock stopped a loop, the result is subset-minimal.
   */
  method OneMinimize(solver: SatSolver, poids: map<nat, int>, conflict: seq<Lit>) returns (core: seq<Lit>, exact: bool)
    requires Distinct(conflict) && Unsat(solver.clauses, ToSet(conflict))
    modifies solver`giveUps
    ensures Distinct(core) && ToSet(core) <= ToSet(conflict) && Unsat(solver.clauses, ToSet(core))
    ensures exact ==> Minimal(solver.clauses, core)
    ensures solver.giveUps >= old(solver.giveUps) && (solver.giveUps == old(solver.giveUps) ==> exact)
  {
    core := SortByWeight(poids, conflict);
    DistinctPermutation(conflict, core);
    exact := true;
    if core == [] {
      return;
    }
    var answer: Answer, stopped: bool;
    core, answer, stopped := DropFromEnd(solver, core);
    if core == [] {
      return;
    }
    if stopped {
      return core, false;
    }
    core, exact := DropOthers(solver, core, answer.Model?);
  }

  /** The first loop: as long as the core without its last literal is a core. */
  method DropFromEnd(solver: SatSolver, conflict: seq<Lit>) returns (core: seq<Lit>, answer: Answer, stopped: bool)
    requires conflict != [] && Distinct(conflict) && Unsat(solver.clauses, ToSet(conflict))
    modifies solver`giveUps
    ensures Distinct(core) && ToSet(core) <= ToSet(conflict) && Unsat(solver.clauses, ToSet(core))
    ensures solver.giveUps >= old(solver.giveUps)
    ensures core != [] && (stopped || !answer.Model?) ==> solver.giveUps > old(solver.giveUps)
    ensures core != [] && !stopped && answer.Model? ==> !Unsat(solver.clauses, ToSet(core) - {core[|core| - 1]})
  {
    core, stopped := conflict, false;
    answer := solver.SolveLimited(ToSet(core) - {core[|core| - 1]});
    if answer.Core? {
      UnsatSubset(solver.clauses, answer.core, ToSet(core) - {core[|core| - 1]});
    }
    while answer.Core?
      invariant core != [] && Distinct(core) && ToSet(core) <= ToSet(conflict) && Unsat(solver.clauses, ToSet(core)) && !stopped
      invariant solver.giveUps >= old(solver.giveUps) && (answer.Unknown? ==> solver.giveUps > old(solver.giveUps))
      invariant answer.Core? ==> Unsat(solver.clauses, ToSet(core) - {core[|core| - 1]})
      invariant answer.Model? ==> !Unsat(solver.clauses, ToSet(core) - {core[|core| - 1]})
      decreases |core|, if answer.Core? then 1 else 0
    {
      DropLast(core);
      core := core[..|core| - 1];
      if core == [] {
        return;
      }
      stopped := solver.TimeUp();
      if stopped {
        return;
      }
      answer := solver.SolveLimited(ToSet(core) - {core[|core| - 1]});
      if answer.Core? {
        UnsatSubset(solver.clauses, answer.core, ToSet(core) - {core[|core| - 1]});
      }
    }
  }

  /** The second loop: each other literal in turn; the last literal takes the place of a deleted one. */
  method DropOthers(solver: SatSolver, conflict: seq<Lit>, lastNeeded: bool) returns (core: seq<Lit>, exact: bool)
    requires conflict != [] && Distinct(conflict) && Unsat(solver.clauses, ToSet(conflict))
    requires lastNeeded ==> !Unsat(solver.clauses, ToSet(conflict) - {conflict[|conflict| - 1]})
    modifies solver`giveUps
    ensures solver.giveUps >= old(solver.giveUps) && (lastNeeded && solver.giveUps == old(solver.giveUps) ==> exact)
    ensures Distinct(core) && ToSet(core) <= ToSet(conflict) && Unsat(solver.clauses, ToSet(core))
    ensures exact ==> Minimal(solver.clauses, core)
  {
    core, exact := conflict, lastNeeded;
    var i := |core| - 1;
    while i > 0
      invariant 0 <= i < |core| && Distinct(core)
      invariant ToSet(core) <= ToSet(conflict) && Unsat(solver.clauses, ToSet(core))
      invariant exact ==> NeededFrom(solver.clauses, core, i)
      invariant solver.giveUps >= old(solver.giveUps) && (lastNeeded && solver.giveUps == old(solver.giveUps) ==> exact)
    {
      hide Unsat;
      i := i - 1;
      var answer := solver.SolveLimited(ToSet(core) - {core[i]});
      match answer
      case Unknown =>
        exact := false;
      case Model(_) =>
      case Core(c) =>
        UnsatSubset(solver.clauses, c, ToSet(core) - {core[i]});
        var shorter := core[i := core[|core| - 1]][..|core| - 1];
        DeleteAt(solver.clauses, core, i, shorter);
        core := shorter;
      var stopped := solver.TimeUp();
      if stopped {
        return core, false;
      }
    }
  }

  /** Some answer was unknown, or the literal is compatible with a kept one. */
  ghost predicate Dropped(clauses: set<Clause>, gaveUp: bool, kept: seq<Lit>, l: Lit) {
    gaveUp || exists k | k in kept :: !Unsat(clauses, {k, l})
  }

  lemma DroppedMore(clauses: set<Clause>, gaveUp: bool, kept: seq<Lit>, gaveUp': bool, kept': seq<Lit>, l: Lit)
    requires Dropped(clauses, gaveUp, kept, l) && (gaveUp ==> gaveUp') && forall k | k in kept :: k in kept'
    ensures Dropped(clauses, gaveUp', kept', l)
  {
  }

  lemma TogetherSat(clauses: set<Clause>, m: Assignment, k: Lit, l: Lit)
    requires Sat(m, clauses) && AllTrue(m, {k, l})
    ensures !Unsat(clauses, {k, l})
  {
  }

  /** From left to right: the first i literals are incompatible with each other and with all that follow. */
  ghost predicate Settled(clauses: set<Clause>, clique: seq<Lit>, i: nat) {
    forall a, b | 0 <= a < i && a < b < |clique| :: Unsat(clauses, {clique[a], clique[b]})
  }

  lemma SettledNext(clauses: set<Clause>, clique: seq<Lit>, r: seq<Lit>, i: nat)
    requires Settled(clauses, clique, i) && i < |clique| && i < |r| && r[..i + 1] == clique[..i + 1]
    requires forall b | i < b < |r| :: r[b] in clique[i + 1..] && Unsat(clauses, {r[i], r[b]})
    ensures Settled(clauses, r, i + 1)
  {
    hide Unsat;
    forall a, b | 0 <= a < i + 1 && a < b < |r| ensures Unsat(clauses, {r[a], r[b]}) {
      assert r[a] == r[..i + 1][a] == clique[a];
      if a < i {
        if b <= i {
          assert r[b] == r[..i + 1][b] == clique[b];
        } else {
          var x :| 0 <= x < |clique[i + 1..]| && clique[i + 1..][x] == r[b];
          assert clique[i + 1 + x] == r[b];
        }
      }
    }
  }

  lemma FrontDistinct(s: seq<Lit>, n: nat)
    requires Distinct(s) && n <= |s|
    ensures Distinct(s[..n]) && (n < |s| ==> s[n] !in s[..n])
  {
  }

  lemma PushDistinct(s: seq<Lit>, l: Lit)
    requires Distinct(s) && l !in s
    ensures Distinct(s + [l])
  {
  }

  /** The inner loop: literals after the one at i go unless the solver proves them incompatible with it. */
  method KeepIncompatible(solver: SatSolver, clique: seq<Lit>, i: nat) returns (r: seq<Lit>)
    requires Distinct(clique) && i < |clique|
    modifies solver`giveUps
    ensures solver.giveUps >= old(solver.giveUps) && Distinct(r) && i < |r| <= |clique| && r[..i + 1] == clique[..i + 1]
    ensures forall b | i < b < |r| :: r[b] in clique[i + 1..] && Unsat(solver.clauses, {r[i], r[b]})
    ensures forall l | l in clique && l !in r :: solver.giveUps > old(solver.giveUps) || !Unsat(solver.clauses, {clique[i], l})
  {
    hide Unsat, Distinct;
    r := clique[..i + 1];
    FrontDistinct(clique, i + 1);
    for j := i + 1 to |clique|
      invariant solver.giveUps >= old(solver.giveUps) && Distinct(r) && i < |r| <= j && r[..i + 1] == clique[..i + 1]
      invariant forall l | l in r :: l in clique[..j]
      invariant forall b | i < b < |r| :: r[b] in clique[i + 1..] && Unsat(solver.clauses, {r[i], r[b]})
      invariant forall l | l in clique[..j] && l !in r :: solver.giveUps > old(solver.giveUps) || !Unsat(solver.clauses, {clique[i], l})
    {
      FrontDistinct(clique, j);
      assert clique[..j + 1] == clique[..j] + [clique[j]] && r[i] == r[..i + 1][i] == clique[i];
      assert clique[i + 1..][j - i - 1] == clique[j];
      var answer := solver.SolveLimited({clique[i], clique[j]});
      if answer.Core? {
        UnsatSubset(solver.clauses, answer.core, {clique[i], clique[j]});
        PushDistinct(r, clique[j]);
        r := r + [clique[j]];
      } else if answer.Model? {
        TogetherSat(solver.clauses, answer.model, clique[i], clique[j]);
      }
    }
    assert clique[..|clique|] == clique;
  }

  /**
   `reduceCliqueV2`: keep, from left to right, the literals that the solver proves
   incompatible with all those kept before them. What goes is compatible with one that is kept,
   unless an answer was unknown.
   */
  method ReduceClique(solver: SatSolver, lits: seq<Lit>) returns (clique: seq<Lit>)
    requires Distinct(lits)
    modifies solver`giveUps
    ensures Distinct(clique) && forall l | l in clique :: l in lits
    ensures forall k, l | k in clique && l in clique && k != l :: Unsat(solver.clauses, {k, l})
    ensures lits != [] ==> clique != [] && clique[0] == lits[0]
    ensures forall l | l in lits && l !in clique :: Dropped(solver.clauses, solver.giveUps > old(solver.giveUps), clique, l)
  {
    hide Unsat, Dropped, Settled;
    clique := lits;
    var i := 0;
    SettledNone(solver.clauses, clique);
    while i < |clique|
      invariant 0 <= i <= |clique| <= |lits| && solver.giveUps >= old(solver.giveUps)
      invariant Distinct(clique) && forall l | l in clique :: l in lits
      invariant Settled(solver.clauses, clique, i)
      invariant lits != [] ==> clique != [] && clique[0] == lits[0]
      invariant forall l | l in lits && l !in clique :: Dropped(solver.clauses, solver.giveUps > old(solver.giveUps), clique[..i], l)
      decreases |lits| - i
    {
      ghost var before, given := clique, solver.giveUps;
      clique := KeepIncompatible(solver, clique, i);
      SettledNext(solver.clauses, before, clique, i);
      assert clique[0] == clique[..i + 1][0] == before[0];
      forall b | 0 <= b < |clique| ensures clique[b] in lits {
        assert b <= i ==> clique[b] == clique[..i + 1][b] == before[b];
        assert before[b] in before;
      }
      forall l | l in lits && l !in clique
        ensures Dropped(solver.clauses, solver.giveUps > old(solver.giveUps), clique[..i + 1], l)
      {
        if l in before {
          DroppedBy(solver.clauses, solver.giveUps > old(solver.giveUps), before, clique[..i + 1], i, l);
        } else {
          assert before[..i] == clique[..i + 1][..i];
          DroppedMore(solver.clauses, given > old(solver.giveUps), before[..i], solver.giveUps > old(solver.giveUps), clique[..i + 1], l);
        }
      }
      i := i + 1;
    }
    assert clique[..i] == clique;
    SettledAll(solver.clauses, clique);
  }

  lemma DroppedBy(clauses: set<Clause>, gaveUp: bool, before: seq<Lit>, kept: seq<Lit>, i: nat, l: Lit)
    requires i < |before| && kept == before[..i + 1] && (gaveUp || !Unsat(clauses, {before[i], l}))
    ensures Dropped(clauses, gaveUp, kept, l)
  {
    assert kept[i] in kept;
  }

  lemma SettledNone(clauses: set<Clause>, clique: seq<Lit>)
    ensures Settled(clauses, clique, 0)
  {
  }

  lemma SettledAll(clauses: set<Clause>, clique: seq<Lit>)
    requires Settled(clauses, clique, |clique|)
    ensures forall k, l | k in clique && l in clique && k != l :: Unsat(clauses, {k, l})
  {
    hide Unsat;
    forall k, l | k in clique && l in clique && k != l ensures Unsat(clauses, {k, l}) {
      var a :| 0 <= a < |clique| && clique[a] == k;
      var b :| 0 <= b < |clique| && clique[b] == l;
      assert {k, l} == {l, k};
    }
  }
}
