/**
 The second part of equivalent-literal substitution: all clauses are rewritten
 with representatives, and the equivalences go to the extension stack.
 */
module Substitute {
  import opened Cnf
  import opened Extension
  import opened Elim
  import Implications
  import Tarjan
  import Decompose

  type Reprs = map<Lit, Lit>

  /** Literals and their representatives agree. */
  ghost predicate Respects(m: Assignment, reprs: Reprs) {
    forall l | l in reprs :: True(m, l) == True(m, reprs[l])
  }

  ghost predicate ReprOk(reprs: Reprs, l: Lit) {
    l in reprs ==>
      && reprs[l] in reprs && reprs[reprs[l]] == reprs[l]
      && Neg(l) in reprs && reprs[Neg(l)] == Neg(reprs[l])
  }

  /** What the first part establishes about representatives. */
  ghost predicate ReprsOk(reprs: Reprs) {
    forall l: Lit :: ReprOk(reprs, l)
  }

  /** A literal is active or assigned on the root level. */
  predicate Known(l: Lit, reprs: Reprs, units: set<Lit>) {
    l in reprs || l in units || Neg(l) in units
  }

  predicate Fixed(l: Lit, reprs: Reprs) {
    l in reprs && reprs[l] == l
  }

  // ----- one clause -----

  /** What substitution makes of the first k literals. */
  ghost predicate Rewritten(c: Clause, k: nat, r: Clause, reprs: Reprs, units: set<Lit>)
    requires k <= |c|
  {
    && WfClause(r)
    && (forall l | l in r :: Fixed(l, reprs) && l !in units && Neg(l) !in units)
    && (forall m: Assignment | AllTrue(m, units) && Respects(m, reprs) :: SatClause(m, c[..k]) <==> SatClause(m, r))
  }

  /** In every assignment that counts, the clause is satisfied. */
  ghost predicate Useless(c: Clause, reprs: Reprs, units: set<Lit>) {
    forall m: Assignment | AllTrue(m, units) && Respects(m, reprs) :: SatClause(m, c)
  }

  lemma SatNext(m: Assignment, c: Clause, k: nat)
    requires k < |c|
    ensures SatClause(m, c[..k + 1]) <==> SatClause(m, c[..k]) || True(m, c[k])
  {
    assert c[..k + 1] == c[..k] + [c[k]];
    if SatClause(m, c[..k]) {
      var l :| l in c[..k] && True(m, l);
      assert l in c[..k + 1];
    }
  }

  lemma SatPush(m: Assignment, c: Clause, l: Lit)
    ensures SatClause(m, c + [l]) <==> SatClause(m, c) || True(m, l)
  {
    if SatClause(m, c) {
      var x :| x in c && True(m, x);
      assert x in c + [l];
    }
    assert l in c + [l];
  }

  /** A literal that is false, or whose representative is there already, adds nothing. */
  lemma SkipLit(c: Clause, k: nat, r: Clause, reprs: Reprs, units: set<Lit>)
    requires k < |c| && Rewritten(c, k, r, reprs, units)
    requires Neg(c[k]) in units || (c[k] in reprs && (Neg(reprs[c[k]]) in units || reprs[c[k]] in r))
    ensures Rewritten(c, k + 1, r, reprs, units)
  {
    hide WfClause;
    var l := c[k];
    forall m: Assignment | AllTrue(m, units) && Respects(m, reprs) ensures SatClause(m, c[..k + 1]) <==> SatClause(m, r) {
      SatNext(m, c, k);
      if Neg(l) in units {
        assert True(m, Neg(l));
      } else if Neg(reprs[l]) in units {
        assert True(m, Neg(reprs[l]));
      } else if True(m, l) {
        assert True(m, reprs[l]);
      }
    }
  }

  lemma PushLit(c: Clause, k: nat, r: Clause, reprs: Reprs, units: set<Lit>)
    requires k < |c| && Rewritten(c, k, r, reprs, units) && ReprsOk(reprs) && c[k] in reprs
    requires var o := reprs[c[k]]; o !in units && Neg(o) !in units && o !in r && Neg(o) !in r
    ensures Rewritten(c, k + 1, r + [reprs[c[k]]], reprs, units)
  {
    var o := reprs[c[k]];
    assert ReprOk(reprs, c[k]);
    AppendWf(r, o);
    hide WfClause;
    forall m: Assignment | AllTrue(m, units) && Respects(m, reprs) ensures SatClause(m, c[..k + 1]) <==> SatClause(m, r + [o]) {
      SatNext(m, c, k);
      SatPush(m, r, o);
    }
  }

  lemma AppendWf(r: Clause, o: Lit)
    requires WfClause(r) && o !in r && Neg(o) !in r
    ensures WfClause(r + [o])
  {
    forall l | l in r + [o] ensures Neg(l) !in r + [o] {
      assert Neg(Neg(l)) == l;
    }
  }

  /** A true literal, or one whose negated representative is there, satisfies the clause. */
  lemma UselessBy(c: Clause, k: nat, r: Clause, reprs: Reprs, units: set<Lit>)
    requires k < |c| && Rewritten(c, k, r, reprs, units)
    requires c[k] in units || (c[k] in reprs && (reprs[c[k]] in units || Neg(reprs[c[k]]) in r))
    ensures Useless(c, reprs, units)
  {
    hide WfClause;
    var l := c[k];
    assert l in c;
    forall m: Assignment | AllTrue(m, units) && Respects(m, reprs) ensures SatClause(m, c) {
      if !True(m, l) && l !in units && reprs[l] !in units {
        assert True(m, Neg(reprs[l]));
        assert SatClause(m, r);
        var x :| x in c[..k] && True(m, x);
        assert x in c;
      }
    }
  }

  /** The loop that copies one clause. */
  method SubstituteLits(c: Clause, reprs: Reprs, units: set<Lit>) returns (satisfied: bool, r: Clause)
    requires ReprsOk(reprs) && forall l | l in c :: Known(l, reprs, units)
    ensures satisfied ==> Useless(c, reprs, units)
    ensures !satisfied ==> Rewritten(c, |c|, r, reprs, units)
  {
    hide Rewritten, Useless, ReprsOk;
    satisfied, r := false, [];
    EmptyRewritten(c, reprs, units);
    for k := 0 to |c|
      invariant Rewritten(c, k, r, reprs, units)
    {
      var lit := c[k];
      assert lit in c;
      if lit in units {
        UselessBy(c, k, r, reprs, units);
        return true, r;
      } else if Neg(lit) in units {
        SkipLit(c, k, r, reprs, units);
      } else {
        var other := reprs[lit];
        if Neg(other) in units {
          SkipLit(c, k, r, reprs, units);
        } else if other in units {
          UselessBy(c, k, r, reprs, units);
          return true, r;
        } else if Neg(other) in r {
          UselessBy(c, k, r, reprs, units);
          return true, r;
        } else if other in r {
          SkipLit(c, k, r, reprs, units);
        } else {
          PushLit(c, k, r, reprs, units);
          r := r + [other];
        }
      }
    }
  }

  lemma EmptyRewritten(c: Clause, reprs: Reprs, units: set<Lit>)
    ensures Rewritten(c, 0, [], reprs, units)
  {
    assert c[..0] == [];
  }

  // ----- all clauses -----

  /** The same models among the assignments that respect the representatives. */
  ghost predicate Same(reprs: Reprs, db: Db, db': Db) {
    forall m: Assignment | Respects(m, reprs) :: Models(m, db) <==> Models(m, db')
  }

  /** The clause at i gets other literals; a copy of the old one may be kept as garbage at the end. */
  function Replaced(db: Db, i: nat, r: Clause, copy: bool): (db': Db)
    requires i < |db.clauses|
  {
    if copy then db.(clauses := db.clauses[i := r] + [db.clauses[i]], garbage := db.garbage + [true])
    else db.(clauses := db.clauses[i := r])
  }

  lemma ReplacedSame(reprs: Reprs, db: Db, i: nat, r: Clause, copy: bool)
    requires WfDb(db) && Live(db, i) && Rewritten(db.clauses[i], |db.clauses[i]|, r, reprs, db.units)
    ensures Same(reprs, db, Replaced(db, i, r, copy)) && WfDb(Replaced(db, i, r, copy))
  {
    var c := db.clauses[i];
    var db' := Replaced(db, i, r, copy);
    assert c[..|c|] == c;
    hide WfClause;
    assert forall k: nat | Live(db', k) :: k < |db.clauses| && Live(db, k);
    assert forall k: nat | Live(db, k) :: Live(db', k);
    assert forall k: nat | k < |db.clauses| && k != i :: db'.clauses[k] == db.clauses[k];
    forall m: Assignment | Respects(m, reprs) ensures Models(m, db) <==> Models(m, db') {
      if AllTrue(m, db.units) {
        assert SatClause(m, c) <==> SatClause(m, r);
      }
    }
  }

  lemma GarbageSame(reprs: Reprs, db: Db, i: nat)
    requires Live(db, i) && Useless(db.clauses[i], reprs, db.units)
    ensures Same(reprs, db, MarkGarbage(db, i))
  {
    var db' := MarkGarbage(db, i);
    forall m: Assignment | Respects(m, reprs) ensures Models(m, db) <==> Models(m, db') {
      assert forall k: nat | Live(db', k) :: Live(db, k);
      assert forall k: nat | Live(db, k) && k != i :: Live(db', k);
    }
  }

  lemma EmptySame(reprs: Reprs, db: Db, i: nat)
    requires Live(db, i) && Rewritten(db.clauses[i], |db.clauses[i]|, [], reprs, db.units)
    ensures Same(reprs, db, LearnEmpty(db))
  {
    var c := db.clauses[i];
    assert c[..|c|] == c;
    forall m: Assignment | Respects(m, reprs) ensures !Models(m, db) {
      assert AllTrue(m, db.units) ==> !SatClause(m, c);
    }
  }

  /** A unit takes the place of the clause. */
  lemma UnitSame(reprs: Reprs, db: Db, i: nat, u: Lit)
    requires Live(db, i) && Rewritten(db.clauses[i], |db.clauses[i]|, [u], reprs, db.units)
    ensures Same(reprs, db, MarkGarbage(AssignUnit(db, u), i))
  {
    var c := db.clauses[i];
    assert c[..|c|] == c;
    var db' := MarkGarbage(AssignUnit(db, u), i);
    assert forall k: nat | Live(db', k) :: Live(db, k) && k != i;
    assert forall k: nat | Live(db, k) && k != i :: Live(db', k);
    forall m: Assignment | Respects(m, reprs) ensures Models(m, db) <==> Models(m, db') {
      if AllTrue(m, db.units) {
        UnitTrue(m, u);
      }
      assert AllTrue(m, db'.units) ==> AllTrue(m, db.units) && True(m, u) by {
        assert u in db'.units;
      }
    }
  }

  lemma SameTransitive(reprs: Reprs, a: Db, b: Db, c: Db)
    requires Same(reprs, a, b) && Same(reprs, b, c)
    ensures Same(reprs, a, c)
  {
    hide Models;
  }

  lemma SameSelf(reprs: Reprs, db: Db)
    ensures Same(reprs, db, db)
  {
  }

  /** All literals are representatives. */
  predicate Clean(c: Clause, reprs: Reprs) {
    forall l | l in c :: Fixed(l, reprs)
  }

  ghost predicate UnitsClean(units: set<Lit>, reprs: Reprs) {
    forall l | l in units :: l in reprs ==> reprs[l] == l
  }

  ghost predicate AllKnown(db: Db, reprs: Reprs) {
    forall i: nat, l | Live(db, i) && l in db.clauses[i] :: Known(l, reprs, db.units)
  }

  /** State of the loop over the clauses after k of them; the postponed ones are satisfied. */
  ghost predicate Substituting(reprs: Reprs, db0: Db, db: Db, k: nat, postponed: seq<nat>) {
    && WfDb(db) && Same(reprs, db0, db) && AllKnown(db, reprs) && UnitsClean(db.units, reprs)
    && |db0.clauses| <= |db.clauses| && k <= |db0.clauses|
    && (forall i: nat | Live(db, i) && i < k && i !in postponed :: Clean(db.clauses[i], reprs))
    && (forall i: nat | |db0.clauses| <= i < |db.clauses| :: !Live(db, i))
    && (forall i | i in postponed :: i < k && Useless(db.clauses[i], reprs, db.units))
  }

  lemma UselessMore(c: Clause, reprs: Reprs, units: set<Lit>, units': set<Lit>)
    requires Useless(c, reprs, units) && units <= units'
    ensures Useless(c, reprs, units')
  {
    forall m: Assignment | AllTrue(m, units') && Respects(m, reprs) ensures SatClause(m, c) {
      assert AllTrue(m, units);
    }
  }

  lemma StepSkip(reprs: Reprs, db0: Db, db: Db, k: nat, postponed: seq<nat>)
    requires Substituting(reprs, db0, db, k, postponed) && k < |db0.clauses|
    requires Live(db, k) ==> Clean(db.clauses[k], reprs)
    ensures Substituting(reprs, db0, db, k + 1, postponed)
  {
    hide WfDb, Same, AllKnown, Useless, Clean;
  }

  lemma StepUseless(reprs: Reprs, db0: Db, db: Db, k: nat, postponed: seq<nat>)
    requires Substituting(reprs, db0, db, k, postponed) && k < |db0.clauses| && Useless(db.clauses[k], reprs, db.units)
    ensures Substituting(reprs, db0, db, k + 1, postponed + [k])
  {
    hide WfDb, Same, AllKnown, Useless, Clean;
  }

  lemma StepEmpty(reprs: Reprs, db0: Db, db: Db, k: nat, postponed: seq<nat>)
    requires Substituting(reprs, db0, db, k, postponed) && Live(db, k)
    requires Rewritten(db.clauses[k], |db.clauses[k]|, [], reprs, db.units)
    ensures Substituting(reprs, db0, LearnEmpty(db), k, postponed)
  {
    EmptySame(reprs, db, k);
    SameTransitive(reprs, db0, db, LearnEmpty(db));
    hide Same, Useless, Clean, Rewritten, WfClause;
    var db' := LearnEmpty(db);
    assert forall i: nat :: Live(db', i) == Live(db, i);
  }

  lemma StepUnit(reprs: Reprs, db0: Db, db: Db, k: nat, postponed: seq<nat>, u: Lit)
    requires Substituting(reprs, db0, db, k, postponed) && Live(db, k) && k < |db0.clauses|
    requires Rewritten(db.clauses[k], |db.clauses[k]|, [u], reprs, db.units)
    ensures Substituting(reprs, db0, MarkGarbage(AssignUnit(db, u), k), k + 1, postponed)
  {
    var db' := MarkGarbage(AssignUnit(db, u), k);
    UnitSame(reprs, db, k, u);
    SameTransitive(reprs, db0, db, db');
    assert u in [u];
    assert Fixed(u, reprs) && u !in db.units && Neg(u) !in db.units;
    hide Same, Rewritten, WfClause, Clean;
    assert forall i: nat | Live(db', i) :: Live(db, i) && i != k;
    forall i | i in postponed ensures Useless(db'.clauses[i], reprs, db'.units) {
      UselessMore(db.clauses[i], reprs, db.units, db'.units);
    }
    hide Useless;
    forall i: nat, l | Live(db', i) && l in db'.clauses[i] ensures Known(l, reprs, db'.units) {
      assert Live(db, i) && Known(l, reprs, db.units);
    }
  }

  lemma StepReplace(reprs: Reprs, db0: Db, db: Db, k: nat, postponed: seq<nat>, r: Clause, copy: bool)
    requires Substituting(reprs, db0, db, k, postponed) && Live(db, k) && k < |db0.clauses|
    requires Rewritten(db.clauses[k], |db.clauses[k]|, r, reprs, db.units)
    ensures Substituting(reprs, db0, Replaced(db, k, r, copy), k + 1, postponed)
  {
    var db' := Replaced(db, k, r, copy);
    ReplacedSame(reprs, db, k, r, copy);
    SameTransitive(reprs, db0, db, db');
    assert Clean(r, reprs);
    assert forall l | l in r :: Known(l, reprs, db.units);
    hide Same, Rewritten, WfDb, Useless, Clean, Known;
    assert |db.garbage| == |db.clauses| by {
      WfSize(db);
    }
    assert forall i: nat | Live(db', i) :: i < |db.clauses| && Live(db, i);
    assert forall i: nat | i < |db.clauses| && i != k :: db'.clauses[i] == db.clauses[i];
    assert db'.clauses[k] == r;
  }

  lemma WfSize(db: Db)
    requires WfDb(db)
    ensures |db.garbage| == |db.clauses|
  {
  }

  /** The loop of `decompose_round` over all clauses. */
  method SubstituteClauses(reprs: Reprs, db0: Db) returns (db: Db, postponed: seq<nat>)
    requires WfDb(db0) && ReprsOk(reprs) && AllKnown(db0, reprs) && UnitsClean(db0.units, reprs)
    ensures Substituting(reprs, db0, db, if db.unsat then 0 else |db0.clauses|, if db.unsat then [] else postponed)
  {
    hide ReprsOk, Same, Rewritten, Useless, WfClause;
    db, postponed := db0, [];
    SameSelf(reprs, db0);
    var i := 0;
    while i < |db0.clauses| && !db.unsat
      invariant i <= |db0.clauses| && Substituting(reprs, db0, db, i, postponed)
    {
      hide Substituting;
      SubstitutingFacts(reprs, db0, db, i, postponed);
      var c := db.clauses[i];
      if db.garbage[i] || Clean(c, reprs) {
        StepSkip(reprs, db0, db, i, postponed);
      } else {
        KnownAt(db, reprs, i);
        var satisfied, r := SubstituteLits(c, reprs, db.units);
        if satisfied {
          StepUseless(reprs, db0, db, i, postponed);
          postponed := postponed + [i];
        } else if |r| == 0 {
          StepEmpty(reprs, db0, db, i, postponed);
          db := LearnEmpty(db);
          break;
        } else if |r| == 1 {
          assert r == [r[0]];
          StepUnit(reprs, db0, db, i, postponed, r[0]);
          db := MarkGarbage(AssignUnit(db, r[0]), i);
        } else {
          var copy := |c| < 2 || c[0] != r[0] || c[1] != r[1];
          StepReplace(reprs, db0, db, i, postponed, r, copy);
          db := Replaced(db, i, r, copy);
        }
      }
      i := i + 1;
    }
    if db.unsat {
      SubstitutingEarlier(reprs, db0, db, i, postponed);
    }
  }

  lemma SubstitutingFacts(reprs: Reprs, db0: Db, db: Db, k: nat, postponed: seq<nat>)
    requires Substituting(reprs, db0, db, k, postponed)
    ensures WfDb(db) && AllKnown(db, reprs) && |db0.clauses| <= |db.clauses| == |db.garbage|
  {
  }

  lemma KnownAt(db: Db, reprs: Reprs, i: nat)
    requires AllKnown(db, reprs) && Live(db, i)
    ensures forall l | l in db.clauses[i] :: Known(l, reprs, db.units)
  {
  }

  lemma SubstitutingEarlier(reprs: Reprs, db0: Db, db: Db, k: nat, postponed: seq<nat>)
    requires Substituting(reprs, db0, db, k, postponed)
    ensures Substituting(reprs, db0, db, 0, [])
  {
    hide WfDb, Same, AllKnown, Useless, Clean;
  }

  /** After both loops: the same models, and only representatives are left. */
  ghost predicate Substituted(reprs: Reprs, db0: Db, db: Db) {
    && WfDb(db) && Same(reprs, db0, db) && UnitsClean(db.units, reprs)
    && (!db.unsat ==> forall i: nat | Live(db, i) :: Clean(db.clauses[i], reprs))
  }

  /** Satisfied clauses are dropped only now. */
  method DropPostponed(reprs: Reprs, ghost db0: Db, db1: Db, postponed: seq<nat>) returns (db: Db)
    requires Substituting(reprs, db0, db1, |db0.clauses|, postponed)
    ensures Substituted(reprs, db0, db)
  {
    hide Same, Useless, WfClause, Clean;
    db := db1;
    for k := 0 to |postponed|
      invariant Substituting(reprs, db0, db, |db0.clauses|, postponed) && forall x | 0 <= x < k :: !Live(db, postponed[x])
    {
      var i := postponed[k];
      assert i in postponed;
      if !db.garbage[i] {
        ghost var db2 := db;
        GarbageSame(reprs, db, i);
        db := MarkGarbage(db, i);
        SameTransitive(reprs, db0, db2, db);
        assert forall j: nat | Live(db, j) :: Live(db2, j);
      }
    }
    forall i: nat | Live(db, i) ensures Clean(db.clauses[i], reprs) {
      assert i !in postponed;
    }
  }

  /** Rewriting all clauses: `decompose_round` without its search. */
  method SubstituteAll(reprs: Reprs, db0: Db) returns (db: Db)
    requires WfDb(db0) && ReprsOk(reprs) && AllKnown(db0, reprs) && UnitsClean(db0.units, reprs)
    ensures Substituted(reprs, db0, db)
  {
    hide Same, Useless, WfClause, Clean, ReprsOk;
    var postponed;
    db, postponed := SubstituteClauses(reprs, db0);
    if !db.unsat {
      db := DropPostponed(reprs, db0, db, postponed);
    }
  }

  // ----- the equivalences -----

  function Implication(a: Lit, b: Lit): (c: Clause) {
    [Neg(a), b]
  }

  lemma ImplicationTrue(m: Assignment, a: Lit, b: Lit)
    ensures SatClause(m, Implication(a, b)) <==> (True(m, a) ==> True(m, b))
  {
    assert Neg(a) in Implication(a, b) && b in Implication(a, b);
  }

  /** No clause mentions the variable. */
  ghost predicate Without(f: set<Clause>, v: nat) {
    forall c | c in f :: !Mentions(c, v)
  }

  lemma PutWithout(m: Assignment, f: set<Clause>, l: Lit)
    requires Sat(m, f) && Without(f, l.v)
    ensures Sat(Put(m, l), f)
  {
    forall c | c in f ensures SatClause(Put(m, l), c) {
      var x :| x in c && True(m, x);
      assert x == Lit(x.v, x.pos);
      assert x.v != l.v;
      assert True(Put(m, l), x);
    }
  }

  /** The clause a implies b can be repaired by making a false, if nothing but b implies a mentions a. */
  lemma ImplicationRedundant(f: set<Clause>, f': set<Clause>, a: Lit, b: Lit)
    requires Without(f, a.v) && a.v != b.v && f <= f' <= f + {Implication(Neg(a), Neg(b))}
    ensures Redundant(f', Entry([Neg(a)], Implication(a, b)))
  {
    var c := Implication(a, b);
    forall m: Assignment | Sat(m, f') && !SatClause(m, c) ensures Sat(PutAll(m, [Neg(a)]), f' + {c}) {
      PutOne(m, Neg(a));
      var r := Put(m, Neg(a));
      PutWithout(m, f, Neg(a));
      ImplicationTrue(m, a, b);
      ImplicationTrue(r, a, b);
      ImplicationTrue(r, Neg(a), Neg(b));
      assert !True(r, a) && True(r, b) == True(m, b);
    }
  }

  /** Both implications of an equivalence move to the stack. */
  lemma EquivalenceStep(orig: set<Clause>, f: set<Clause>, es: seq<Entry>, x: Lit, r: Lit)
    requires Without(f, x.v) && x.v != r.v
    requires Simplified(orig, f + {Implication(x, r), Implication(Neg(x), Neg(r))}, es)
    ensures Simplified(orig, f, es + [Entry([Neg(x)], Implication(x, r))] + [Entry([x], Implication(Neg(x), Neg(r)))])
  {
    var c1, c2 := Implication(x, r), Implication(Neg(x), Neg(r));
    assert Neg(Neg(x)) == x && Neg(Neg(r)) == r;
    ImplicationRedundant(f, f + {c2}, x, r);
    hide Simplified, Redundant, Without;
    WeakenStep(orig, f + {c1, c2}, f + {c2}, es, Entry([Neg(x)], c1));
    NoImplication(f, x, r);
    WeakenStep(orig, f + {c2}, f, es + [Entry([Neg(x)], c1)], Entry([x], c2));
  }

  lemma NoImplication(f: set<Clause>, x: Lit, r: Lit)
    requires Without(f, x.v) && x.v != r.v
    ensures Redundant(f, Entry([x], Implication(Neg(x), Neg(r))))
  {
    assert Neg(Neg(x)) == x && Neg(x).v == x.v;
    ImplicationRedundant(f, f, Neg(x), Neg(r));
  }

  /** The implications of all substituted variables in the list. */
  ghost function Equivalences(vars: seq<nat>, reprs: Reprs): (f: set<Clause>) {
    if vars == [] then {}
    else
      var x := Lit(vars[0], true);
      (if x in reprs && reprs[x] != x then {Implication(x, reprs[x]), Implication(Neg(x), Neg(reprs[x]))} else {})
      + Equivalences(vars[1..], reprs)
  }

  lemma {:induction false} EquivalencesWithout(vars: seq<nat>, reprs: Reprs, x: Lit)
    requires ReprsOk(reprs) && x in reprs && reprs[x] != x && x.v !in vars
    ensures Without(Equivalences(vars, reprs), x.v)
  {
    if vars != [] {
      EquivalencesWithout(vars[1..], reprs, x);
      var y := Lit(vars[0], true);
      if y in reprs && reprs[y] != y {
        RepNotSubstituted(reprs, y, x);
        ImplicationWithout(y, reprs[y], x.v);
        ImplicationWithout(Neg(y), Neg(reprs[y]), x.v);
      }
      hide ReprsOk, Mentions, Implication;
    }
  }

  lemma ImplicationWithout(a: Lit, b: Lit, v: nat)
    requires a.v != v && b.v != v
    ensures !Mentions(Implication(a, b), v)
  {
  }

  /** A representative is not itself substituted. */
  lemma RepNotSubstituted(reprs: Reprs, y: Lit, x: Lit)
    requires ReprsOk(reprs) && y in reprs && x in reprs && reprs[x] != x
    ensures reprs[y].v != x.v
  {
    var r := reprs[y];
    assert ReprOk(reprs, y) && ReprOk(reprs, r);
    assert x.v == r.v ==> x == r || x == Neg(r);
  }

  lemma CleanWithout(reprs: Reprs, db: Db, x: Lit)
    requires ReprsOk(reprs) && x in reprs && reprs[x] != x && UnitsClean(db.units, reprs) && !db.unsat
    requires forall i: nat | Live(db, i) :: Clean(db.clauses[i], reprs)
    ensures Without(Formula(db), x.v)
  {
    assert ReprOk(reprs, x) && Neg(x) in reprs;
    forall l: Lit | l.v == x.v ensures l in reprs && reprs[l] != l {
      assert l == x || l == Neg(x);
    }
    forall c, l | c in Formula(db) && l in c ensures l in reprs ==> reprs[l] == l {
      if i: nat :| Live(db, i) && db.clauses[i] == c {
        assert Fixed(l, reprs);
      } else {
        assert l in db.units;
      }
    }
    hide Formula, ReprsOk, Clean, UnitsClean;
  }

  /** The equivalences say exactly that representatives are respected. */
  lemma {:induction false} EquivalencesRespect(m: Assignment, vars: seq<nat>, reprs: Reprs)
    requires ReprsOk(reprs)
    ensures Sat(m, Equivalences(vars, reprs)) <==> forall l | l in reprs && l.v in vars :: True(m, l) == True(m, reprs[l])
  {
    if vars != [] {
      EquivalencesRespect(m, vars[1..], reprs);
      var x := Lit(vars[0], true);
      assert vars == [vars[0]] + vars[1..];
      HeadRespect(m, vars[0], reprs);
      assert forall l: Lit | l.v in vars :: l.v == vars[0] || l.v in vars[1..];
    }
  }

  lemma HeadRespect(m: Assignment, v: nat, reprs: Reprs)
    requires ReprsOk(reprs)
    ensures var x := Lit(v, true);
            (forall l | l in reprs && l.v == v :: True(m, l) == True(m, reprs[l])) <==>
            (x in reprs && reprs[x] != x ==> SatClause(m, Implication(x, reprs[x])) && SatClause(m, Implication(Neg(x), Neg(reprs[x]))))
  {
    var x := Lit(v, true);
    forall l | l in reprs && l.v == v ensures x in reprs && (l == x || (l == Neg(x) && reprs[l] == Neg(reprs[x]))) {
      assert l == x || l == Neg(x);
      assert Neg(Neg(x)) == x;
      assert ReprOk(reprs, l) && ReprOk(reprs, x);
    }
    if x in reprs {
      ImplicationTrue(m, x, reprs[x]);
      ImplicationTrue(m, Neg(x), Neg(reprs[x]));
    }
  }

  // ----- the round -----

  /** The last loop of `decompose_round`. */
  method PushEquivalences(ext: External, vars: seq<nat>, reprs: Reprs, ghost orig: set<Clause>, ghost db: Db)
    requires ext.Valid() && Distinct(vars) && ReprsOk(reprs) && UnitsClean(db.units, reprs) && !db.unsat
    requires forall i: nat | Live(db, i) :: Clean(db.clauses[i], reprs)
    requires Simplified(orig, Formula(db) + Equivalences(vars, reprs), ext.entries)
    modifies ext`extension, ext`entries
    ensures ext.Valid() && old(ext.entries) <= ext.entries && Simplified(orig, Formula(db), ext.entries)
  {
    hide Simplified, Formula, Equivalences, ReprsOk, Clean, UnitsClean, Without;
    assert vars[0..] == vars;
    for k := 0 to |vars|
      invariant ext.Valid() && old(ext.entries) <= ext.entries
      invariant Simplified(orig, Formula(db) + Equivalences(vars[k..], reprs), ext.entries)
    {
      var x := Lit(vars[k], true);
      EquivalencesStep(vars, k, reprs);
      if x in reprs && reprs[x] != x {
        ghost var f := Formula(db) + Equivalences(vars[k + 1..], reprs);
        PushOk(vars, k, reprs, db);
        assert f + {Implication(x, reprs[x]), Implication(Neg(x), Neg(reprs[x]))} == Formula(db) + Equivalences(vars[k..], reprs);
        EquivalenceStep(orig, f, ext.entries, x, reprs[x]);
        assert Neg(Neg(x)) == x;
        ext.PushBinaryClause(Neg(x), reprs[x]);
        ext.PushBinaryClause(x, Neg(reprs[x]));
      }
    }
    NoEquivalences(reprs);
    assert vars[|vars|..] == [];
    assert Formula(db) + {} == Formula(db);
  }

  lemma NoEquivalences(reprs: Reprs)
    ensures Equivalences([], reprs) == {}
  {
  }

  lemma EquivalencesStep(vars: seq<nat>, k: nat, reprs: Reprs)
    requires k < |vars|
    ensures var x := Lit(vars[k], true); var rest := Equivalences(vars[k + 1..], reprs);
            Equivalences(vars[k..], reprs) ==
            if x in reprs && reprs[x] != x then {Implication(x, reprs[x]), Implication(Neg(x), Neg(reprs[x]))} + rest else rest
  {
    assert vars[k..][1..] == vars[k + 1..];
  }

  lemma PushOk(vars: seq<nat>, k: nat, reprs: Reprs, db: Db)
    requires k < |vars| && Distinct(vars) && ReprsOk(reprs) && UnitsClean(db.units, reprs) && !db.unsat
    requires forall i: nat | Live(db, i) :: Clean(db.clauses[i], reprs)
    requires Lit(vars[k], true) in reprs && reprs[Lit(vars[k], true)] != Lit(vars[k], true)
    ensures Without(Formula(db) + Equivalences(vars[k + 1..], reprs), vars[k]) && reprs[Lit(vars[k], true)].v != vars[k]
  {
    var x := Lit(vars[k], true);
    assert vars[k] !in vars[k + 1..];
    hide Formula, Equivalences;
    CleanWithout(reprs, db, x);
    EquivalencesWithout(vars[k + 1..], reprs, x);
    RepNotSubstituted(reprs, x, x);
  }

  /** Before the equivalences are pushed: the rewritten clauses with them are equivalent to the old ones. */
  lemma SubstitutedStep(orig: set<Clause>, db0: Db, db: Db, es: seq<Entry>, vars: seq<nat>, reprs: Reprs)
    requires Simplified(orig, Formula(db0), es) && Same(reprs, db0, db) && ReprsOk(reprs)
    requires forall m: Assignment | Models(m, db0) :: Respects(m, reprs)
    requires forall l | l in reprs :: l.v in vars
    ensures Simplified(orig, Formula(db) + Equivalences(vars, reprs), es)
  {
    var f := Formula(db) + Equivalences(vars, reprs);
    hide Formula, Equivalences, Models, Simplified, ReprsOk;
    forall m: Assignment ensures Sat(m, Formula(db0)) <==> Sat(m, f) {
      FormulaModels(m, db0);
      FormulaModels(m, db);
      EquivalencesRespect(m, vars, reprs);
      assert Sat(m, f) <==> Sat(m, Formula(db)) && Sat(m, Equivalences(vars, reprs));
      assert Respects(m, reprs) <==> Sat(m, Equivalences(vars, reprs));
    }
    RewriteStep(orig, Formula(db0), f, es);
  }

  /** Every edge of the implication graph is a binary clause that the data base implies. */
  ghost predicate GraphOf(g: Implications.Graph, db: Db) {
    forall u, v, m: Assignment | Implications.Edge(g, u, v) && Models(m, db) && True(m, u) :: True(m, v)
  }

  lemma GraphSound(g: Implications.Graph, db: Db)
    requires GraphOf(g, db)
    ensures Implications.Sound(Formula(db), g)
  {
    hide Formula, Models;
    forall u, v | Implications.Edge(g, u, v) ensures Entails(Formula(db), [Neg(u), v]) {
      forall m: Assignment | Sat(m, Formula(db)) ensures SatClause(m, [Neg(u), v]) {
        FormulaModels(m, db);
        assert Neg(u) in [Neg(u), v] && v in [Neg(u), v];
      }
    }
  }

  /** The representatives that the search finds are as the rewriting needs them. */
  lemma SearchedReprs(g: Implications.Graph, frozen: set<nat>, reprs: Reprs, db: Db)
    requires Implications.Skew(g) && Decompose.RepsOk(g, frozen, reprs, g.Keys) && GraphOf(g, db)
    ensures ReprsOk(reprs) && forall m: Assignment | Models(m, db) :: Respects(m, reprs)
  {
    SearchedOk(g, frozen, reprs);
    SearchedRespects(g, frozen, reprs, db);
    hide ReprsOk, Models, Respects;
  }

  lemma SearchedOk(g: Implications.Graph, frozen: set<nat>, reprs: Reprs)
    requires Implications.Skew(g) && Decompose.RepsOk(g, frozen, reprs, g.Keys)
    ensures ReprsOk(reprs)
  {
    Decompose.RepsKeys(g, frozen, reprs, g.Keys);
    hide Implications.Skew, Decompose.RepsOk;
    forall l: Lit ensures ReprOk(reprs, l) {
      if l in reprs {
        Decompose.RepIdempotent(g, frozen, reprs, l);
        Decompose.RepNegation(g, frozen, reprs, l);
      }
    }
  }

  lemma SearchedRespects(g: Implications.Graph, frozen: set<nat>, reprs: Reprs, db: Db)
    requires Decompose.RepsOk(g, frozen, reprs, g.Keys) && GraphOf(g, db)
    ensures forall m: Assignment | Models(m, db) :: Respects(m, reprs)
  {
    Decompose.RepsKeys(g, frozen, reprs, g.Keys);
    GraphSound(g, db);
    hide Models, Formula, GraphOf, Decompose.RepsOk, Implications.Mutual, Implications.Sound, Sat;
    forall m: Assignment, l | Models(m, db) && l in reprs ensures True(m, l) == True(m, reprs[l]) {
      FormulaModels(m, db);
      Decompose.RepMutual(g, frozen, reprs, l);
      Implications.MutualEquivalent(Formula(db), g, l, reprs[l], m);
    }
  }

  // ----- the implication graph -----

  /** One of the first k clauses is the binary clause "not u or v". */
  ghost predicate HasBinary(db: Db, k: nat, u: Lit, v: Lit) {
    exists i: nat | i < k && Live(db, i) :: db.clauses[i] == [Neg(u), v] || db.clauses[i] == [v, Neg(u)]
  }

  function AddEdge(g: Implications.Graph, u: Lit, v: Lit): (r: Implications.Graph) {
    if u in g then g[u := g[u] + [v]] else g
  }

  ghost predicate Edges(g: Implications.Graph, db: Db, k: nat) {
    forall u, v | u in g :: v in g[u] <==> HasBinary(db, k, u, v)
  }

  lemma BinaryNext(db: Db, k: nat, u: Lit, v: Lit)
    ensures HasBinary(db, k + 1, u, v) <==>
            HasBinary(db, k, u, v) || (Live(db, k) && (db.clauses[k] == [Neg(u), v] || db.clauses[k] == [v, Neg(u)]))
  {
  }

  lemma SkipEdges(g: Implications.Graph, db: Db, k: nat)
    requires Edges(g, db, k) && (Live(db, k) ==> |db.clauses[k]| != 2)
    ensures Edges(g, db, k + 1)
  {
    hide HasBinary;
    forall u, v | u in g ensures v in g[u] <==> HasBinary(db, k + 1, u, v) {
      BinaryNext(db, k, u, v);
    }
  }

  lemma AddEdges(g: Implications.Graph, db: Db, k: nat)
    requires Edges(g, db, k) && Live(db, k) && |db.clauses[k]| == 2
    ensures var a, b := db.clauses[k][0], db.clauses[k][1]; Edges(AddEdge(AddEdge(g, Neg(a), b), Neg(b), a), db, k + 1)
  {
    hide HasBinary;
    var c := db.clauses[k];
    var a, b := c[0], c[1];
    assert c == [a, b];
    var g' := AddEdge(AddEdge(g, Neg(a), b), Neg(b), a);
    forall u, v | u in g' ensures v in g'[u] <==> HasBinary(db, k + 1, u, v) {
      BinaryNext(db, k, u, v);
      assert v in g'[u] <==> v in g[u] || (u == Neg(a) && v == b) || (u == Neg(b) && v == a);
      assert Neg(Neg(a)) == a && Neg(Neg(b)) == b;
    }
  }

  /** The graph of all live binary clauses over the active variables; each clause gives two edges. */
  method BuildGraph(db: Db, vars: seq<nat>) returns (g: Implications.Graph)
    requires WfDb(db)
    ensures forall l: Lit :: l in g <==> l.v in vars
    ensures Implications.Skew(g) && GraphOf(g, db)
    ensures forall u, v | u in g && v in g :: Implications.Edge(g, u, v) <==> HasBinary(db, |db.clauses|, u, v)
  {
    hide HasBinary, WfClause, Models;
    g := map[];
    for k := 0 to |vars|
      invariant forall l: Lit :: l in g <==> l.v in vars[..k]
      invariant forall l | l in g :: g[l] == []
    {
      assert vars[..k + 1] == vars[..k] + [vars[k]];
      forall l: Lit ensures l.v == vars[k] <==> l == Lit(vars[k], false) || l == Lit(vars[k], true) {
      }
      g := g[Lit(vars[k], false) := []][Lit(vars[k], true) := []];
    }
    assert vars[..|vars|] == vars;
    NoBinaries(g, db);
    ghost var keys := g.Keys;
    for k := 0 to |db.clauses|
      invariant g.Keys == keys && Edges(g, db, k)
    {
      var c := db.clauses[k];
      if !db.garbage[k] && |c| == 2 {
        AddEdges(g, db, k);
        g := AddEdge(AddEdge(g, Neg(c[0]), c[1]), Neg(c[1]), c[0]);
      } else {
        SkipEdges(g, db, k);
      }
    }
    BuiltSkew(g, db);
    BuiltSound(g, db);
  }

  lemma NoBinaries(g: Implications.Graph, db: Db)
    requires forall l | l in g :: g[l] == []
    ensures Edges(g, db, 0)
  {
  }

  lemma BuiltSkew(g: Implications.Graph, db: Db)
    requires Edges(g, db, |db.clauses|) && forall l: Lit | l in g :: Neg(l) in g
    ensures Implications.Skew(g)
  {
    forall u, v | Implications.Edge(g, u, v) ensures Implications.Edge(g, Neg(v), Neg(u)) {
      assert HasBinary(db, |db.clauses|, u, v);
      assert Neg(Neg(v)) == v;
      assert HasBinary(db, |db.clauses|, Neg(v), Neg(u));
    }
  }

  lemma BuiltSound(g: Implications.Graph, db: Db)
    requires Edges(g, db, |db.clauses|)
    ensures GraphOf(g, db)
  {
    forall u, v, m: Assignment | Implications.Edge(g, u, v) && Models(m, db) && True(m, u) ensures True(m, v) {
      assert HasBinary(db, |db.clauses|, u, v);
      var i: nat :| i < |db.clauses| && Live(db, i) && (db.clauses[i] == [Neg(u), v] || db.clauses[i] == [v, Neg(u)]);
      var l :| l in db.clauses[i] && True(m, l);
    }
  }

  // ----- chains of binary clauses -----

  /** A chain of live binary clauses over the active variables: each literal implies the next. */
  ghost predicate Chain(db: Db, vars: seq<nat>, p: seq<Lit>) {
    && p != [] && (forall i | 0 <= i < |p| :: p[i].v in vars)
    && forall i | 0 <= i < |p| - 1 :: HasBinary(db, |db.clauses|, p[i], p[i + 1])
  }

  ghost predicate ChainBetween(db: Db, vars: seq<nat>, u: Lit, v: Lit, p: seq<Lit>) {
    Chain(db, vars, p) && p[0] == u && p[|p| - 1] == v
  }

  ghost predicate Leads(db: Db, vars: seq<nat>, u: Lit, v: Lit) {
    exists p: seq<Lit> :: ChainBetween(db, vars, u, v, p)
  }

  /** Each of the two literals implies the other through binary clauses. */
  ghost predicate Twins(db: Db, vars: seq<nat>, u: Lit, v: Lit) {
    Leads(db, vars, u, v) && Leads(db, vars, v, u)
  }

  ghost predicate Mirrors(g: Implications.Graph, db: Db, vars: seq<nat>) {
    && (forall l: Lit :: l in g <==> l.v in vars)
    && forall u, v | u in g && v in g :: Implications.Edge(g, u, v) <==> HasBinary(db, |db.clauses|, u, v)
  }

  /** The graph reaches what the clauses lead to. */
  lemma LeadsReach(g: Implications.Graph, db: Db, vars: seq<nat>, u: Lit, v: Lit)
    requires Mirrors(g, db, vars)
    ensures Leads(db, vars, u, v) <==> Implications.Reach(g, u, v)
  {
    hide HasBinary;
    if Leads(db, vars, u, v) {
      var p :| ChainBetween(db, vars, u, v, p);
      forall i | 0 <= i < |p| - 1 ensures Implications.Edge(g, p[i], p[i + 1]) {
        assert HasBinary(db, |db.clauses|, p[i], p[i + 1]);
      }
      assert Implications.PathFrom(g, u, v, p);
    }
    if Implications.Reach(g, u, v) {
      var p :| Implications.PathFrom(g, u, v, p);
      forall i | 0 <= i < |p| ensures p[i] in g {
        assert i > 0 ==> Implications.Edge(g, p[i - 1], p[i]);
      }
      forall i | 0 <= i < |p| - 1 ensures HasBinary(db, |db.clauses|, p[i], p[i + 1]) {
        assert Implications.Edge(g, p[i], p[i + 1]);
      }
      assert ChainBetween(db, vars, u, v, p);
    }
  }

  lemma MirrorsIntro(g: Implications.Graph, db: Db, vars: seq<nat>)
    requires forall l: Lit :: l in g <==> l.v in vars
    requires forall u, v | u in g && v in g :: Implications.Edge(g, u, v) <==> HasBinary(db, |db.clauses|, u, v)
    ensures Mirrors(g, db, vars)
  {
  }

  /** What the representative of an active literal is, in terms of the binary clauses. */
  ghost predicate Represents(db: Db, vars: seq<nat>, frozen: set<nat>, l: Lit, r: Lit) {
    if l.v in frozen then r == l
    else Twins(db, vars, l, r) && forall w | Twins(db, vars, l, w) :: r.v <= w.v
  }

  lemma SearchedMeaning(g: Implications.Graph, db: Db, vars: seq<nat>, frozen: set<nat>, reprs: Reprs, l: Lit)
    requires Mirrors(g, db, vars) && Decompose.RepsOk(g, frozen, reprs, g.Keys) && l.v in vars
    ensures !Twins(db, vars, l, Neg(l)) && l in reprs && Represents(db, vars, frozen, l, reprs[l])
  {
    hide Leads, Implications.Reach;
    assert Decompose.RepAt(g, frozen, l, reprs[l]);
    forall w ensures Twins(db, vars, l, w) <==> Implications.Mutual(g, l, w) {
      LeadsReach(g, db, vars, l, w);
      LeadsReach(g, db, vars, w, l);
    }
  }

  /** Both literals of every variable, the negative one first. */
  method BothLiterals(vars: seq<nat>) returns (order: seq<Lit>)
    ensures forall l: Lit :: l in order <==> l.v in vars
  {
    order := [];
    for k := 0 to |vars|
      invariant forall l: Lit :: l in order <==> l.v in vars[..k]
    {
      assert vars[..k + 1] == vars[..k] + [vars[k]];
      forall l: Lit ensures l.v == vars[k] <==> l == Lit(vars[k], false) || l == Lit(vars[k], true) {
      }
      order := order + [Lit(vars[k], false), Lit(vars[k], true)];
    }
    assert vars[..|vars|] == vars;
  }

  /**
   `decompose_round` over the active variables: the formula is unsatisfiable, or all substituted
   variables are gone from it and every model is extended through the pushed equivalences.
   */
  method DecomposeRound(frozen: set<nat>, vars: seq<nat>, db0: Db, ext: External, ghost orig: set<Clause>)
      returns (db: Db, reprs: Reprs)
    requires Distinct(vars) && WfDb(db0) && !db0.unsat && ext.Valid() && Simplified(orig, Formula(db0), ext.entries)
    requires forall i: nat, l | Live(db0, i) && l in db0.clauses[i] :: l.v in vars || l in db0.units || Neg(l) in db0.units
    requires forall l | l in db0.units :: l.v !in vars
    modifies ext`extension, ext`entries
    ensures WfDb(db) && ext.Valid() && old(ext.entries) <= ext.entries && Simplified(orig, Formula(db), ext.entries)
    ensures db.unsat || forall i: nat, l | Live(db, i) && l in db.clauses[i] && l in reprs :: reprs[l] == l
    ensures !db.unsat ==> ReprsOk(reprs) && forall l: Lit :: l in reprs <==> l.v in vars
    ensures forall l: Lit | l.v in vars && Twins(db0, vars, l, Neg(l)) :: db.unsat
    ensures !db.unsat ==> Same(reprs, db0, db) && forall l: Lit | l.v in vars :: Represents(db0, vars, frozen, l, reprs[l])
  {
    hide Simplified, Formula, Models, ReprsOk, Implications.Skew, Implications.Mutual, Decompose.RepsOk, Same, WfClause, GraphOf, HasBinary, Mirrors, Twins, Represents;
    var g := BuildGraph(db0, vars);
    assert Mirrors(g, db0, vars) by {
      MirrorsIntro(g, db0, vars);
    }
    var order := BothLiterals(vars);
    var contradiction;
    reprs, contradiction := Decompose.Representatives(g, frozen, order);
    db := db0;
    if contradiction.Some? {
      GraphSound(g, db0);
      Implications.ContradictoryUnsat(Formula(db0), g, contradiction.value);
      UnsatStep(orig, db0, ext.entries);
      db := LearnEmpty(db0);
      return;
    }
    SearchedReprs(g, frozen, reprs, db0);
    Decompose.RepsKeys(g, frozen, reprs, g.Keys);
    forall l: Lit | l.v in vars ensures !Twins(db0, vars, l, Neg(l)) && Represents(db0, vars, frozen, l, reprs[l]) {
      SearchedMeaning(g, db0, vars, frozen, reprs, l);
    }
    SameSelf(reprs, db0);
    if forall l | l in reprs :: reprs[l] == l {
      return;
    }
    db := SubstituteAll(reprs, db0);
    SubstitutedStep(orig, db0, db, ext.entries, vars, reprs);
    if db.unsat {
      UnsatStays(orig, db, ext.entries, vars, reprs);
      return;
    }
    PushEquivalences(ext, vars, reprs, orig, db);
  }

  lemma UnsatStep(orig: set<Clause>, db: Db, es: seq<Entry>)
    requires Simplified(orig, Formula(db), es) && Unsat(Formula(db), {})
    ensures Simplified(orig, Formula(LearnEmpty(db)), es)
  {
    hide Formula;
    forall m: Assignment ensures !Models(m, db) {
      FormulaModels(m, db);
      assert AllTrue(m, {});
    }
    hide Simplified;
    EquivalentStep(orig, db, LearnEmpty(db), es);
  }

  lemma UnsatStays(orig: set<Clause>, db: Db, es: seq<Entry>, vars: seq<nat>, reprs: Reprs)
    requires Simplified(orig, Formula(db) + Equivalences(vars, reprs), es) && db.unsat
    ensures Simplified(orig, Formula(db), es)
  {
    var f := Formula(db) + Equivalences(vars, reprs);
    assert [] in Formula(db);
    forall m: Assignment ensures !Sat(m, Formula(db)) && !Sat(m, f) {
      assert !SatClause(m, []);
    }
    RewriteStep(orig, f, Formula(db), es);
  }
}
