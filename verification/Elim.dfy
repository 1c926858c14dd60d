/**
 Bounded variable elimination: all resolvents on a pivot are added, with unit
 resolvents and on-the-fly self-subsumption, and the clauses with the pivot
 move to the extension stack.
 */
module Elim {
  import opened Cnf
  import opened Extension

  /** The clause data base at decision level zero. */
  datatype Db = Db(clauses: seq<Clause>, garbage: seq<bool>, units: set<Lit>, unsat: bool)

  ghost predicate WfClause(c: Clause) {
    Distinct(c) && Consistent(c)
  }

  ghost predicate WfDb(db: Db) {
    && |db.garbage| == |db.clauses|
    && (forall i | 0 <= i < |db.clauses| :: WfClause(db.clauses[i]))
    && (forall l | l in db.units :: Neg(l) !in db.units)
  }

  predicate Live(db: Db, i: nat) {
    i < |db.clauses| && i < |db.garbage| && !db.garbage[i]
  }

  predicate Mentions(c: Clause, v: nat) {
    Lit(v, true) in c || Lit(v, false) in c
  }

  ghost function Formula(db: Db): (f: set<Clause>) {
    (set i | 0 <= i < |db.clauses| && Live(db, i) :: db.clauses[i])
    + (set l | l in db.units :: [l])
    + (if db.unsat then {[]} else {})
  }

  ghost predicate Models(m: Assignment, db: Db) {
    && !db.unsat && AllTrue(m, db.units)
    && forall i: nat | Live(db, i) :: SatClause(m, db.clauses[i])
  }

  lemma FormulaModels(m: Assignment, db: Db)
    ensures Sat(m, Formula(db)) <==> Models(m, db)
  {
    var f := Formula(db);
    if Sat(m, f) {
      assert !db.unsat by {
        assert db.unsat ==> [] in f;
        assert !SatClause(m, []);
      }
      forall l | l in db.units ensures True(m, l) {
        assert [l] in f;
        assert SatClause(m, [l]);
      }
      forall i: nat | Live(db, i) ensures SatClause(m, db.clauses[i]) {
        assert db.clauses[i] in f;
      }
    }
    if Models(m, db) {
      forall c | c in f ensures SatClause(m, c) {
        if l :| l in db.units && c == [l] {
          assert l in c;
        }
      }
    }
  }

  // ----- the steps on the data base -----

  function MarkGarbage(db: Db, i: nat): (r: Db)
    requires i < |db.garbage|
  {
    db.(garbage := db.garbage[i := true])
  }

  function AddClause(db: Db, c: Clause): (r: Db) {
    db.(clauses := db.clauses + [c], garbage := db.garbage + [false])
  }

  function AssignUnit(db: Db, l: Lit): (r: Db) {
    db.(units := db.units + {l})
  }

  function LearnEmpty(db: Db): (r: Db) {
    db.(unsat := true)
  }

  ghost predicate Equivalent(db: Db, db': Db) {
    forall m: Assignment :: Models(m, db) <==> Models(m, db')
  }

  lemma SatisfiedGarbage(db: Db, i: nat, l: Lit)
    requires Live(db, i) && l in db.clauses[i] && l in db.units
    ensures Equivalent(db, MarkGarbage(db, i))
  {
    var db' := MarkGarbage(db, i);
    forall m: Assignment ensures Models(m, db) <==> Models(m, db') {
      assert forall k: nat | Live(db', k) :: Live(db, k);
      assert forall k: nat | Live(db, k) && k != i :: Live(db', k);
    }
  }

  lemma ImpliedClause(db: Db, c: Clause)
    requires |db.garbage| == |db.clauses| && forall m: Assignment | Models(m, db) :: SatClause(m, c)
    ensures Equivalent(db, AddClause(db, c))
  {
    hide SatClause;
    var db' := AddClause(db, c);
    forall m: Assignment ensures Models(m, db) <==> Models(m, db') {
      assert db'.clauses[|db.clauses|] == c && Live(db', |db.clauses|);
      forall k: nat | Live(db, k) ensures Live(db', k) && db'.clauses[k] == db.clauses[k] {
      }
      forall k: nat | Live(db', k) ensures k == |db.clauses| || Live(db, k) {
      }
    }
  }

  ghost predicate Subset(c: Clause, d: Clause) {
    forall l | l in c :: l in d
  }

  lemma SubsumedGarbage(db: Db, i: nat, j: nat)
    requires Live(db, i) && Live(db, j) && i != j && Subset(db.clauses[j], db.clauses[i])
    ensures Equivalent(db, MarkGarbage(db, i))
  {
    var db' := MarkGarbage(db, i);
    forall m: Assignment ensures Models(m, db) <==> Models(m, db') {
      assert forall k: nat | Live(db', k) :: Live(db, k);
      assert forall k: nat | Live(db, k) && k != i :: Live(db', k);
      assert Live(db', j);
    }
  }

  lemma ImpliedUnit(db: Db, l: Lit)
    requires forall m: Assignment | Models(m, db) :: True(m, l)
    ensures Equivalent(db, AssignUnit(db, l))
  {
    hide SatClause;
    var db' := AssignUnit(db, l);
    forall m: Assignment ensures Models(m, db) <==> Models(m, db') {
      assert forall k: nat :: Live(db, k) == Live(db', k);
    }
  }

  lemma EquivalentTransitive(a: Db, b: Db, c: Db)
    requires Equivalent(a, b) && Equivalent(b, c)
    ensures Equivalent(a, c)
  {
    hide Models;
  }

  lemma EquivalentStep(orig: set<Clause>, db: Db, db': Db, es: seq<Entry>)
    requires Simplified(orig, Formula(db), es) && Equivalent(db, db')
    ensures Simplified(orig, Formula(db'), es)
  {
    hide Models, Formula, Simplified;
    forall m: Assignment ensures Sat(m, Formula(db)) <==> Sat(m, Formula(db')) {
      FormulaModels(m, db);
      FormulaModels(m, db');
    }
    RewriteStep(orig, Formula(db), Formula(db'), es);
  }

  // ----- resolvents -----

  /** Some other literal of one of the two clauses is true. */
  ghost predicate Resolved(m: Assignment, c: Clause, p: Lit, d: Clause) {
    || (exists l | l in c && l != p :: True(m, l))
    || (exists l | l in d && l != Neg(p) :: True(m, l))
  }

  /** What does not mention the pivot holds. */
  ghost predicate Rest(m: Assignment, db: Db, v: nat) {
    && !db.unsat && AllTrue(m, db.units)
    && forall i: nat | Live(db, i) && !Mentions(db.clauses[i], v) :: SatClause(m, db.clauses[i])
  }

  /** The resolvent of two clauses holds in whatever satisfies the clauses without the pivot. */
  ghost predicate PairDone(db: Db, i: nat, k: nat, p: Lit) {
    Live(db, i) && Live(db, k) ==> forall m: Assignment | Rest(m, db, p.v) :: Resolved(m, db.clauses[i], p, db.clauses[k])
  }

  /** What resolving on a pivot may do to the data base. */
  ghost predicate Grown(db: Db, db': Db, v: nat) {
    && |db.clauses| <= |db'.clauses| && |db.garbage| == |db.clauses| && |db'.garbage| == |db'.clauses|
    && (forall i | 0 <= i < |db.clauses| :: db'.clauses[i] == db.clauses[i])
    && (forall i | 0 <= i < |db.clauses| :: db'.garbage[i] ==> db.garbage[i] || Mentions(db.clauses[i], v))
    && (forall i | 0 <= i < |db.clauses| :: db.garbage[i] ==> db'.garbage[i])
    && (forall i | |db.clauses| <= i < |db'.clauses| :: !Mentions(db'.clauses[i], v))
    && db.units <= db'.units && (forall l | l in db'.units - db.units :: l.v != v)
    && (db.unsat ==> db'.unsat)
  }

  lemma GrownRest(m: Assignment, db: Db, db': Db, v: nat)
    requires Grown(db, db', v) && Rest(m, db', v)
    ensures Rest(m, db, v)
  {
    hide SatClause;
    forall i: nat | Live(db, i) && !Mentions(db.clauses[i], v) ensures SatClause(m, db.clauses[i]) {
      assert Live(db', i);
    }
  }

  lemma GrownPair(db: Db, db': Db, i: nat, k: nat, p: Lit)
    requires Grown(db, db', p.v) && PairDone(db, i, k, p) && i < |db.clauses| && k < |db.clauses|
    ensures PairDone(db', i, k, p)
  {
    hide Rest, Resolved;
    if Live(db', i) && Live(db', k) {
      forall m: Assignment | Rest(m, db', p.v) ensures Resolved(m, db'.clauses[i], p, db'.clauses[k]) {
        GrownRest(m, db, db', p.v);
      }
    }
  }

  lemma GrownTransitive(a: Db, b: Db, c: Db, v: nat)
    requires Grown(a, b, v) && Grown(b, c, v)
    ensures Grown(a, c, v)
  {
  }

  /** Unit propagation: only satisfied clauses become garbage. */
  ghost predicate Settled(db: Db, db': Db) {
    && db'.clauses == db.clauses && |db'.garbage| == |db.garbage| == |db.clauses| && db.units <= db'.units && (db.unsat ==> db'.unsat)
    && (forall i | 0 <= i < |db.garbage| && db.garbage[i] :: db'.garbage[i])
    && forall i | 0 <= i < |db.garbage| && db'.garbage[i] && !db.garbage[i] :: HasUnit(db.clauses[i], db'.units)
  }

  ghost predicate HasUnit(c: Clause, units: set<Lit>) {
    exists l | l in c :: l in units
  }

  lemma SettledSelf(db: Db)
    requires WfDb(db)
    ensures Settled(db, db)
  {
  }

  lemma SettledClauses(db: Db, db': Db)
    requires Settled(db, db')
    ensures db'.clauses == db.clauses
  {
  }

  lemma UnitIn(c: Clause, units: set<Lit>, l: Lit)
    requires l in c && l in units
    ensures HasUnit(c, units)
  {
  }

  lemma SettledTransitive(a: Db, b: Db, c: Db)
    requires Settled(a, b) && Settled(b, c)
    ensures Settled(a, c)
  {
    forall i | 0 <= i < |a.garbage| && c.garbage[i] && !a.garbage[i] ensures HasUnit(a.clauses[i], c.units) {
      if b.garbage[i] {
        assert HasUnit(a.clauses[i], b.units);
      }
    }
  }

  // ----- resolvents as sets of literals -----

  /** The literals of the resolvent that are not false. */
  function ResolventLits(db: Db, i: nat, k: nat, p: Lit): (r: set<Lit>)
    requires i < |db.clauses| && k < |db.clauses|
  {
    set l | l in db.clauses[i] + db.clauses[k] && l != p && l != Neg(p) && Neg(l) !in db.units
  }

  /** Two live clauses whose resolvent on p is neither a tautology nor satisfied. */
  ghost predicate Proper(db: Db, i: nat, k: nat, p: Lit) {
    && Live(db, i) && Live(db, k) && p in db.clauses[i] && Neg(p) in db.clauses[k]
    && forall l | l in ResolventLits(db, i, k, p) :: l !in db.units && Neg(l) !in ResolventLits(db, i, k, p)
  }

  ghost function ProperPairs(db: Db, p: Lit): (r: set<(nat, nat)>) {
    set i: nat, k: nat | i < |db.clauses| && k < |db.clauses| && Proper(db, i, k, p) :: (i, k)
  }

  lemma ProperSwap(db: Db, i: nat, k: nat, p: Lit)
    requires i < |db.clauses| && k < |db.clauses|
    ensures ResolventLits(db, k, i, Neg(p)) == ResolventLits(db, i, k, p) && (Proper(db, k, i, Neg(p)) <==> Proper(db, i, k, p))
  {
    assert Neg(Neg(p)) == p;
    forall l ensures l in ResolventLits(db, k, i, Neg(p)) <==> l in ResolventLits(db, i, k, p) {
    }
  }

  lemma MergedLits(db: Db, i: nat, k: nat, p: Lit, r: Clause)
    requires Pair(db, i, k, p) && r == Merged(db.clauses[i], p, db.clauses[k], db.units) && Consistent(r)
    requires forall l | l in r :: l !in db.units
    ensures ToSet(r) == ResolventLits(db, i, k, p) && Proper(db, i, k, p)
  {
    assert WfClause(db.clauses[i]) && WfClause(db.clauses[k]) && Neg(Neg(p)) == p;
    forall l ensures l in ToSet(r) <==> l in ResolventLits(db, i, k, p) {
    }
  }

  /** Clauses stay in place, garbage stays garbage and units stay. */
  ghost predicate Later(db: Db, db': Db) {
    && |db.clauses| <= |db'.clauses| && |db.garbage| == |db.clauses| && |db'.garbage| == |db'.clauses| && db.units <= db'.units
    && forall i | 0 <= i < |db.clauses| :: db'.clauses[i] == db.clauses[i] && (db.garbage[i] ==> db'.garbage[i])
  }

  lemma LaterTransitive(a: Db, b: Db, c: Db)
    requires Later(a, b) && Later(b, c)
    ensures Later(a, c)
  {
  }

  lemma LaterSelf(db: Db)
    requires WfDb(db)
    ensures Later(db, db)
  {
  }

  /** What is proper later was proper before, with all its literals. */
  lemma LaterProper(db: Db, db': Db, i: nat, k: nat, p: Lit)
    requires Later(db, db') && WfDb(db') && Proper(db', i, k, p) && i < |db.clauses| && k < |db.clauses|
    ensures Proper(db, i, k, p) && ResolventLits(db', i, k, p) <= ResolventLits(db, i, k, p)
  {
    var r, r' := ResolventLits(db, i, k, p), ResolventLits(db', i, k, p);
    forall l | l in r ensures l !in db.units && Neg(l) !in r {
      assert Neg(Neg(l)) == l && Neg(l) != p && Neg(l) != Neg(p);
      assert l in db'.units ==> l in r';
      assert Neg(l) in r && Neg(l) in db'.units ==> Neg(l) in r';
      assert Neg(l) in r && l !in db'.units && Neg(l) !in db'.units ==> l in r' && Neg(l) in r';
    }
  }

  /** Clauses with the pivot only go, and what satisfies the others now satisfied them before. */
  ghost predicate Onward(db: Db, db': Db, v: nat) {
    && |db.clauses| <= |db'.clauses| && |db.garbage| == |db.clauses| && |db'.garbage| == |db'.clauses|
    && (forall i | 0 <= i < |db.clauses| :: db'.clauses[i] == db.clauses[i] && (db.garbage[i] ==> db'.garbage[i]))
    && (forall i | |db.clauses| <= i < |db'.clauses| :: !Mentions(db'.clauses[i], v))
    && forall m: Assignment | Rest(m, db', v) :: Rest(m, db, v)
  }

  lemma GrownOnward(db: Db, db': Db, v: nat)
    requires Grown(db, db', v)
    ensures Onward(db, db', v)
  {
    forall m: Assignment | Rest(m, db', v) ensures Rest(m, db, v) {
      GrownRest(m, db, db', v);
    }
    hide Rest;
  }

  lemma SettledOnward(db: Db, db': Db, v: nat)
    requires Settled(db, db')
    ensures Onward(db, db', v)
  {
    forall m: Assignment | Rest(m, db', v) ensures Rest(m, db, v) {
      forall i: nat | Live(db, i) && !Mentions(db.clauses[i], v) ensures SatClause(m, db.clauses[i]) {
        if db'.garbage[i] {
          assert HasUnit(db.clauses[i], db'.units);
        } else {
          assert Live(db', i);
        }
      }
    }
    hide Rest;
  }

  lemma OnwardTransitive(a: Db, b: Db, c: Db, v: nat)
    requires Onward(a, b, v) && Onward(b, c, v)
    ensures Onward(a, c, v)
  {
    hide Rest, Mentions;
  }

  lemma OnwardPair(db: Db, db': Db, i: nat, k: nat, p: Lit)
    requires Onward(db, db', p.v) && PairDone(db, i, k, p) && i < |db.clauses| && k < |db.clauses|
    ensures PairDone(db', i, k, p)
  {
    hide Rest, Resolved, Mentions;
  }

  /** A resolvent of two clauses of the data base follows. */
  lemma ResolventFollows(m: Assignment, db: Db, i: nat, k: nat, p: Lit)
    requires Models(m, db) && Live(db, i) && Live(db, k)
    ensures Resolved(m, db.clauses[i], p, db.clauses[k])
  {
    var l :| l in db.clauses[i] && True(m, l);
    var l' :| l' in db.clauses[k] && True(m, l');
  }

  /** The literals that count: not the pivot and not falsified by a unit. */
  function Residue(c: Clause, p: Lit, units: set<Lit>): (r: Clause)
    ensures forall l :: l in r <==> l in c && l != p && Neg(l) !in units
  {
    if c == [] then []
    else
      var n := |c| - 1;
      assert c == c[..n] + [c[n]];
      Residue(c[..n], p, units) + if c[n] == p || Neg(c[n]) in units then [] else [c[n]]
  }

  lemma {:induction false} ResidueWf(c: Clause, p: Lit, units: set<Lit>)
    requires WfClause(c)
    ensures WfClause(Residue(c, p, units))
  {
    if c != [] {
      var n := |c| - 1;
      assert forall l | l in c[..n] :: l in c;
      ResidueWf(c[..n], p, units);
      assert c[n] !in c[..n];
    }
  }

  lemma ResidueHolds(m: Assignment, c: Clause, p: Lit, units: set<Lit>)
    requires AllTrue(m, units)
    ensures SatClause(m, Residue(c, p, units)) <==> exists l | l in c && l != p :: True(m, l)
  {
    if l :| l in c && l != p && True(m, l) {
      assert Neg(l) !in units;
    }
  }

  predicate SatisfiedBut(c: Clause, p: Lit, units: set<Lit>) {
    exists l | l in c && l != p :: l in units
  }

  predicate Clash(a: Clause, b: Clause) {
    exists l | l in b :: Neg(l) in a
  }

  /** Those literals of b that are not in a. */
  function Extra(a: Clause, b: Clause): (r: Clause)
    ensures forall l :: l in r <==> l in b && l !in a
    ensures |r| <= |b|
  {
    if b == [] then []
    else
      var n := |b| - 1;
      assert b == b[..n] + [b[n]];
      Extra(a, b[..n]) + if b[n] in a then [] else [b[n]]
  }

  lemma {:induction false} ExtraDistinct(a: Clause, b: Clause)
    requires Distinct(b)
    ensures Distinct(Extra(a, b))
  {
    if b != [] {
      var n := |b| - 1;
      ExtraDistinct(a, b[..n]);
      assert b[n] !in b[..n];
    }
  }

  /** The size test for self-subsumption of the second clause. */
  lemma ExtraSize(a: Clause, b: Clause)
    requires Distinct(a) && Distinct(b) && |b| >= |a| + |Extra(a, b)|
    ensures Subset(a, b)
  {
    ExtraDistinct(a, b);
    hide Extra, Distinct;
    DistinctSize(a);
    DistinctSize(b);
    DistinctSize(Extra(a, b));
    SetSplit(ToSet(a), ToSet(b), ToSet(Extra(a, b)));
    SubsetSize(ToSet(a) * ToSet(b), ToSet(a));
    forall l | l in a ensures l in b {
      assert l in ToSet(a);
    }
  }

  lemma SetSplit(a: set<Lit>, b: set<Lit>, e: set<Lit>)
    requires e == b - a
    ensures |b| == |a * b| + |e|
  {
    assert b == a * b + e;
  }

  lemma SubsetSize(s: set<Lit>, t: set<Lit>)
    requires s <= t && |s| >= |t|
    ensures s == t
  {
    assert |t| == |s| + |t - s|;
    assert t - s == {};
  }

  /** Without literals of its own the second clause makes the first one smaller. */
  lemma ExtraNone(a: Clause, b: Clause)
    requires Extra(a, b) == []
    ensures Subset(b, a)
  {
    forall l | l in b ensures l in a {
      assert l !in Extra(a, b);
    }
  }

  lemma DistinctConcat(a: Clause, b: Clause)
    requires Distinct(a) && Distinct(b) && forall l | l in b :: l !in a
    ensures Distinct(a + b)
  {
    forall i, j | 0 <= i < |a| && 0 <= j < |b| ensures a[i] != b[j] {
      assert b[j] in b;
    }
  }

  /** Merging two clashless clauses gives a clause. */
  lemma MergeWf(a: Clause, b: Clause)
    requires WfClause(a) && WfClause(b) && !Clash(a, b)
    ensures WfClause(a + Extra(a, b))
  {
    ExtraDistinct(a, b);
    DistinctConcat(a, Extra(a, b));
    var r := a + Extra(a, b);
    forall l | l in r ensures Neg(l) !in r {
      assert Neg(Neg(l)) == l;
    }
  }

  function Merged(c: Clause, p: Lit, d: Clause, units: set<Lit>): (r: Clause) {
    var a := Residue(c, p, units);
    a + Extra(a, Residue(d, Neg(p), units))
  }

  /** Under the units, the merged literals are the resolvent. */
  lemma MergedMeaning(m: Assignment, c: Clause, p: Lit, d: Clause, units: set<Lit>)
    requires AllTrue(m, units)
    ensures SatClause(m, Merged(c, p, d, units)) <==> Resolved(m, c, p, d)
  {
    hide AllTrue;
    var a := Residue(c, p, units);
    var b := Residue(d, Neg(p), units);
    ResidueHolds(m, c, p, units);
    ResidueHolds(m, d, Neg(p), units);
    assert SatClause(m, Merged(c, p, d, units)) <==> SatClause(m, a) || SatClause(m, b) by {
      if SatClause(m, a) {
        var l :| l in a && True(m, l);
        assert l in Merged(c, p, d, units);
      }
      if SatClause(m, b) {
        var l :| l in b && True(m, l);
        assert l in Merged(c, p, d, units);
      }
      if SatClause(m, Merged(c, p, d, units)) {
        var l :| l in Merged(c, p, d, units) && True(m, l);
        assert l in a || l in b;
      }
    }
  }

  lemma ResiduePivotFree(c: Clause, p: Lit, units: set<Lit>)
    requires WfClause(c) && p in c
    ensures !Mentions(Residue(c, p, units), p.v)
  {
    assert Neg(p) !in c;
  }

  /** What `resolve_clauses` does to the data base when it reports no resolvent. */
  ghost predicate ResolveOk(db: Db, db': Db, i: nat, k: nat, p: Lit) {
    WfDb(db') && Equivalent(db, db') && Grown(db, db', p.v) && PairDone(db', i, k, p)
  }

  ghost predicate Pair(db: Db, i: nat, k: nat, p: Lit) {
    && WfDb(db) && Live(db, i) && Live(db, k)
    && p in db.clauses[i] && Neg(p) in db.clauses[k]
  }

  lemma ResolvedSwap(m: Assignment, c: Clause, p: Lit, d: Clause)
    ensures Resolved(m, c, p, d) <==> Resolved(m, d, Neg(p), c)
  {
    assert Neg(Neg(p)) == p;
  }

  lemma ResolveOkSwap(db: Db, db': Db, i: nat, k: nat, p: Lit)
    requires ResolveOk(db, db', i, k, p)
    ensures ResolveOk(db, db', k, i, Neg(p))
  {
    hide Equivalent, Grown, Rest, Resolved, WfDb;
    if Live(db', i) && Live(db', k) {
      forall m: Assignment | Rest(m, db', p.v) ensures Resolved(m, db'.clauses[k], Neg(p), db'.clauses[i]) {
        ResolvedSwap(m, db'.clauses[i], p, db'.clauses[k]);
      }
    }
  }

  lemma OutcomeSatisfied(db: Db, i: nat, k: nat, p: Lit)
    requires Pair(db, i, k, p) && SatisfiedBut(db.clauses[i], p, db.units)
    ensures ResolveOk(db, MarkGarbage(db, i), i, k, p)
  {
    var l :| l in db.clauses[i] && l != p && l in db.units;
    SatisfiedGarbage(db, i, l);
    hide Equivalent;
  }

  lemma OutcomeTautological(db: Db, i: nat, k: nat, p: Lit)
    requires Pair(db, i, k, p) && Clash(Residue(db.clauses[i], p, db.units), Residue(db.clauses[k], Neg(p), db.units))
    ensures ResolveOk(db, db, i, k, p)
  {
    hide WfDb, Models;
    ClashResolved(db.clauses[i], p, db.clauses[k], db.units);
    hide Residue, Clash, Resolved, Mentions;
    GrownSelf(db, p.v);
  }

  lemma ClashResolved(c: Clause, p: Lit, d: Clause, units: set<Lit>)
    requires Clash(Residue(c, p, units), Residue(d, Neg(p), units))
    ensures forall m: Assignment :: Resolved(m, c, p, d)
  {
    var l :| l in Residue(d, Neg(p), units) && Neg(l) in Residue(c, p, units);
    hide Residue, Clash;
    forall m: Assignment ensures Resolved(m, c, p, d) {
      assert True(m, l) || True(m, Neg(l));
    }
  }

  lemma GrownSelf(db: Db, v: nat)
    requires WfDb(db)
    ensures Grown(db, db, v)
  {
  }

  lemma MergedFollows(m: Assignment, db: Db, i: nat, k: nat, p: Lit)
    requires Models(m, db) && Live(db, i) && Live(db, k)
    ensures SatClause(m, Merged(db.clauses[i], p, db.clauses[k], db.units))
  {
    ResolventFollows(m, db, i, k, p);
    MergedMeaning(m, db.clauses[i], p, db.clauses[k], db.units);
  }

  lemma OutcomeEmpty(db: Db, i: nat, k: nat, p: Lit)
    requires Pair(db, i, k, p) && Merged(db.clauses[i], p, db.clauses[k], db.units) == []
    ensures ResolveOk(db, LearnEmpty(db), i, k, p)
  {
    hide Merged;
    forall m: Assignment ensures !Models(m, db) {
      if Models(m, db) {
        MergedFollows(m, db, i, k, p);
      }
    }
  }

  lemma OutcomeUnit(db: Db, i: nat, k: nat, p: Lit, u: Lit)
    requires Pair(db, i, k, p) && Merged(db.clauses[i], p, db.clauses[k], db.units) == [u] && u !in db.units
    ensures ResolveOk(db, AssignUnit(db, u), i, k, p)
  {
    UnitImplied(db, i, k, p, u);
    UnitPair(db, i, k, p, u);
    UnitFacts(db.clauses[i], p, db.clauses[k], db.units, u);
    UnitGrown(db, u, p.v);
    hide Equivalent, PairDone, Merged, WfClause, Mentions, Grown, WfDb;
  }

  lemma UnitGrown(db: Db, u: Lit, v: nat)
    requires WfDb(db) && u.v != v && Neg(u) !in db.units
    ensures Grown(db, AssignUnit(db, u), v) && WfDb(AssignUnit(db, u))
  {
    hide WfClause, Mentions;
  }

  lemma UnitImplied(db: Db, i: nat, k: nat, p: Lit, u: Lit)
    requires Pair(db, i, k, p) && Merged(db.clauses[i], p, db.clauses[k], db.units) == [u]
    ensures Equivalent(db, AssignUnit(db, u))
  {
    hide Models, Merged, SatClause, WfDb;
    forall m: Assignment | Models(m, db) ensures True(m, u) {
      MergedFollows(m, db, i, k, p);
      UnitTrue(m, u);
    }
    ImpliedUnit(db, u);
  }

  lemma UnitPair(db: Db, i: nat, k: nat, p: Lit, u: Lit)
    requires Pair(db, i, k, p) && Merged(db.clauses[i], p, db.clauses[k], db.units) == [u]
    ensures PairDone(AssignUnit(db, u), i, k, p)
  {
    hide Merged, Resolved, SatClause, AllTrue, WfDb;
    forall m: Assignment | Rest(m, AssignUnit(db, u), p.v) ensures Resolved(m, db.clauses[i], p, db.clauses[k]) {
      AllTrueMore(m, db.units, u);
      UnitTrue(m, u);
      MergedMeaning(m, db.clauses[i], p, db.clauses[k], db.units);
    }
  }

  lemma UnitTrue(m: Assignment, u: Lit)
    ensures SatClause(m, [u]) <==> True(m, u)
  {
    assert u in [u];
  }

  lemma AllTrueMore(m: Assignment, units: set<Lit>, u: Lit)
    requires AllTrue(m, units + {u})
    ensures AllTrue(m, units) && True(m, u)
  {
    assert u in units + {u};
    assert forall l | l in units :: l in units + {u};
  }

  lemma UnitFacts(c: Clause, p: Lit, d: Clause, units: set<Lit>, u: Lit)
    requires WfClause(c) && WfClause(d) && p in c && Neg(p) in d && u in Merged(c, p, d, units)
    ensures u.v != p.v && Neg(u) !in units
  {
    assert Neg(p) !in c;
    assert Neg(Neg(p)) == p && p !in d;
    assert u in Residue(c, p, units) || u in Residue(d, Neg(p), units);
  }

  /** On-the-fly self-subsumption: the clause without the pivot replaces the clause. */
  ghost function Strengthen(db: Db, i: nat, p: Lit): (r: Db)
    requires i < |db.clauses| == |db.garbage|
  {
    MarkGarbage(AddClause(db, Residue(db.clauses[i], p, db.units)), i)
  }

  lemma StrengthenEquivalent(db: Db, i: nat, k: nat, p: Lit)
    requires Pair(db, i, k, p) && Subset(Residue(db.clauses[k], Neg(p), db.units), Residue(db.clauses[i], p, db.units))
    ensures Equivalent(db, Strengthen(db, i, p))
  {
    var c, d := db.clauses[i], db.clauses[k];
    var r := Residue(c, p, db.units);
    forall m: Assignment | Models(m, db) ensures SatClause(m, r) {
      MergedFollows(m, db, i, k, p);
      var l :| l in Merged(c, p, d, db.units) && True(m, l);
      assert l in r;
    }
    var db1 := AddClause(db, r);
    ImpliedClause(db, r);
    hide Models;
    assert Subset(r, c);
    SubsumedGarbage(db1, i, |db.clauses|);
    EquivalentTransitive(db, db1, Strengthen(db, i, p));
  }

  lemma OutcomeStrengthen(db: Db, i: nat, k: nat, p: Lit)
    requires Pair(db, i, k, p) && Subset(Residue(db.clauses[k], Neg(p), db.units), Residue(db.clauses[i], p, db.units))
    ensures ResolveOk(db, Strengthen(db, i, p), i, k, p)
  {
    StrengthenEquivalent(db, i, k, p);
    hide Equivalent, Rest, Resolved;
    ResidueWf(db.clauses[i], p, db.units);
    ResiduePivotFree(db.clauses[i], p, db.units);
    hide WfClause, Subset, Residue;
    assert Mentions(db.clauses[i], p.v);
    hide Mentions;
    AddedGrown(db, Residue(db.clauses[i], p, db.units), p.v);
    GarbageGrown(AddClause(db, Residue(db.clauses[i], p, db.units)), i, p.v);
    GrownTransitive(db, AddClause(db, Residue(db.clauses[i], p, db.units)), Strengthen(db, i, p), p.v);
    hide Grown;
  }

  lemma AddedGrown(db: Db, c: Clause, v: nat)
    requires WfDb(db) && WfClause(c) && !Mentions(c, v)
    ensures Grown(db, AddClause(db, c), v) && WfDb(AddClause(db, c))
  {
    hide WfClause, Mentions;
  }

  lemma GarbageGrown(db: Db, i: nat, v: nat)
    requires WfDb(db) && i < |db.clauses| && Mentions(db.clauses[i], v)
    ensures Grown(db, MarkGarbage(db, i), v) && WfDb(MarkGarbage(db, i))
  {
    hide WfClause, Mentions;
  }

  /** Both clauses are the same but for the pivot. */
  lemma OutcomeDouble(db: Db, i: nat, k: nat, p: Lit)
    requires Pair(db, i, k, p) && Subset(Residue(db.clauses[k], Neg(p), db.units), Residue(db.clauses[i], p, db.units))
    requires Subset(Residue(db.clauses[i], p, db.units), Residue(db.clauses[k], Neg(p), db.units))
    ensures ResolveOk(db, MarkGarbage(Strengthen(db, i, p), k), i, k, p)
  {
    var db1 := Strengthen(db, i, p);
    OutcomeStrengthen(db, i, k, p);
    var n := |db.clauses|;
    assert Subset(db1.clauses[n], db1.clauses[k]);
    assert i != k && Mentions(db.clauses[k], p.v) by {
      assert Neg(p) !in db.clauses[i];
    }
    hide Mentions, Rest, Resolved, WfClause, Subset, Residue;
    SubsumedGarbage(db1, k, n);
    EquivalentTransitive(db, db1, MarkGarbage(db1, k));
    hide Equivalent;
    GarbageGrown(db1, k, p.v);
    GrownTransitive(db, db1, MarkGarbage(db1, k), p.v);
  }

  // ----- the two antecedents -----

  method FirstAntecedent(c: Clause, p: Lit, units: set<Lit>) returns (satisfied: bool, lits: Clause, s: nat)
    requires WfClause(c) && p in c
    ensures satisfied <==> SatisfiedBut(c, p, units)
    ensures !satisfied ==> lits == Residue(c, p, units) && s == |lits| + 1
  {
    satisfied, lits, s := false, [], 0;
    for i := 0 to |c|
      invariant !SatisfiedBut(c[..i], p, units)
      invariant lits == Residue(c[..i], p, units)
      invariant s == |lits| + if p in c[..i] then 1 else 0
    {
      assert c[..i + 1][..i] == c[..i];
      var lit := c[i];
      if lit == p {
        assert p !in c[..i];
        s := s + 1;
      } else if lit in units {
        return true, lits, s;
      } else if Neg(lit) !in units {
        lits, s := lits + [lit], s + 1;
      }
      assert forall l | l in c[..i + 1] :: l in c[..i] || l == lit;
      assert p in c[..i + 1] <==> p in c[..i] || p == lit;
    }
    assert c[..|c|] == c;
  }

  method SecondAntecedent(d: Clause, p: Lit, lits: Clause, units: set<Lit>)
      returns (satisfied: bool, tautological: bool, clause: Clause, t: nat)
    requires WfClause(d) && p in d
    ensures satisfied ==> SatisfiedBut(d, p, units)
    ensures tautological ==> !satisfied && Clash(lits, Residue(d, p, units))
    ensures !satisfied && !tautological ==> !SatisfiedBut(d, p, units) && !Clash(lits, Residue(d, p, units))
    ensures !satisfied && !tautological ==> clause == lits + Extra(lits, Residue(d, p, units)) && t == |Residue(d, p, units)| + 1
  {
    hide Residue, Extra, SatisfiedBut, Clash, WfClause;
    satisfied, tautological, clause, t := false, false, lits, 0;
    StepStart(lits, p, units);
    for i := 0 to |d|
      invariant !SatisfiedBut(d[..i], p, units)
      invariant !Clash(lits, Residue(d[..i], p, units))
      invariant clause == lits + Extra(lits, Residue(d[..i], p, units))
      invariant t == |Residue(d[..i], p, units)| + if p in d[..i] then 1 else 0
    {
      OnceBefore(d, i);
      StepSatisfied(d, i, p, units);
      StepResidue(d, i, p, units);
      StepExtra(lits, Residue(d[..i], p, units), d[i]);
      var lit := d[i];
      if lit == p {
        t := t + 1;
      } else if lit in units {
        return true, false, clause, t;
      } else if Neg(lit) !in units {
        if Neg(lit) in lits {
          ClashBy(lits, Residue(d, p, units), lit);
          return false, true, clause, t;
        }
        if lit !in lits {
          clause := clause + [lit];
        }
        t := t + 1;
      }
    }
    assert d[..|d|] == d;
  }

  lemma StepStart(lits: Clause, p: Lit, units: set<Lit>)
    ensures !SatisfiedBut([], p, units) && Residue([], p, units) == []
    ensures Extra(lits, []) == [] && !Clash(lits, [])
  {
  }

  lemma OnceBefore(d: Clause, i: nat)
    requires WfClause(d) && i < |d|
    ensures d[i] !in d[..i]
  {
  }

  lemma ClashBy(lits: Clause, r: Clause, l: Lit)
    requires l in r && Neg(l) in lits
    ensures Clash(lits, r)
  {
  }

  lemma StepSatisfied(d: Clause, i: nat, p: Lit, units: set<Lit>)
    requires i < |d|
    ensures SatisfiedBut(d[..i + 1], p, units) <==> SatisfiedBut(d[..i], p, units) || (d[i] != p && d[i] in units)
    ensures d[i] != p && d[i] in units ==> SatisfiedBut(d, p, units)
    ensures p in d[..i + 1] <==> p in d[..i] || p == d[i]
  {
    assert d[..i + 1] == d[..i] + [d[i]];
  }

  lemma StepResidue(d: Clause, i: nat, p: Lit, units: set<Lit>)
    requires i < |d|
    ensures var r := Residue(d[..i], p, units);
            Residue(d[..i + 1], p, units) == if d[i] == p || Neg(d[i]) in units then r else r + [d[i]]
    ensures d[i] != p && Neg(d[i]) !in units ==> d[i] in Residue(d, p, units)
  {
    assert d[..i + 1][..i] == d[..i];
  }

  lemma StepExtra(lits: Clause, r: Clause, l: Lit)
    ensures Extra(lits, r + [l]) == if l in lits then Extra(lits, r) else Extra(lits, r) + [l]
    ensures Clash(lits, r + [l]) <==> Clash(lits, r) || Neg(l) in lits
  {
    assert (r + [l])[..|r|] == r;
    assert l in r + [l];
  }

  // ----- moving the clauses with the pivot to the stack -----

  /** Clause i can be repaired by its literal p: all its resolvents on p hold. */
  ghost predicate AllDone(db: Db, i: nat, p: Lit) {
    forall k: nat | Live(db, k) && Neg(p) in db.clauses[k] :: PairDone(db, i, k, p)
  }

  ghost predicate PivotFree(units: set<Lit>, v: nat) {
    forall l | l in units :: l.v != v
  }

  lemma FlipKeeps(m: Assignment, db: Db, i: nat, p: Lit, j: nat)
    requires WfDb(db) && Live(db, i) && p in db.clauses[i] && AllDone(db, i, p)
    requires Models(m, MarkGarbage(db, i)) && !SatClause(m, db.clauses[i])
    requires Live(db, j)
    ensures SatClause(Put(m, p), db.clauses[j])
  {
    var c, d := db.clauses[i], db.clauses[j];
    if p in d {
    } else if Neg(p) in d {
      assert PairDone(db, i, j, p);
      GarbageRest(m, db, i, p.v);
      assert Resolved(m, c, p, d);
      var l :| l in d && l != Neg(p) && True(m, l);
      assert l.v != p.v;
      assert True(Put(m, p), l);
    } else {
      assert j != i && Live(MarkGarbage(db, i), j);
      var l :| l in d && True(m, l);
      assert l.v != p.v;
      assert True(Put(m, p), l);
    }
  }

  lemma GarbageRest(m: Assignment, db: Db, i: nat, v: nat)
    requires Live(db, i) && Mentions(db.clauses[i], v) && Models(m, MarkGarbage(db, i))
    ensures Rest(m, db, v)
  {
    hide SatClause;
    forall j: nat | Live(db, j) && !Mentions(db.clauses[j], v) ensures SatClause(m, db.clauses[j]) {
      assert Live(MarkGarbage(db, i), j);
    }
  }

  lemma PutUnits(m: Assignment, units: set<Lit>, p: Lit)
    requires AllTrue(m, units) && PivotFree(units, p.v)
    ensures AllTrue(Put(m, p), units)
  {
  }

  lemma PivotRedundant(db: Db, i: nat, p: Lit)
    requires WfDb(db) && Live(db, i) && p in db.clauses[i] && AllDone(db, i, p) && PivotFree(db.units, p.v)
    ensures Redundant(Formula(MarkGarbage(db, i)), Entry([p], db.clauses[i]))
  {
    hide Formula, WfDb, AllDone, AllTrue, SatClause, PivotFree;
    var db' := MarkGarbage(db, i);
    var c := db.clauses[i];
    var f := Formula(db');
    forall m: Assignment | Sat(m, f) && !SatClause(m, c) ensures Sat(PutAll(m, [p]), f + {c}) {
      var r := PutAll(m, [p]);
      PutOne(m, p);
      FormulaModels(m, db');
      FormulaModels(r, db');
      PutUnits(m, db.units, p);
      forall j: nat | Live(db, j) ensures SatClause(r, db.clauses[j]) {
        FlipKeeps(m, db, i, p, j);
      }
      assert Models(r, db') by {
        assert forall j: nat | Live(db', j) :: Live(db, j);
      }
    }
  }

  lemma GarbageFormula(db: Db, i: nat)
    requires Live(db, i)
    ensures Formula(MarkGarbage(db, i)) <= Formula(db) <= Formula(MarkGarbage(db, i)) + {db.clauses[i]}
  {
    var db' := MarkGarbage(db, i);
    forall c | c in Formula(db') ensures c in Formula(db) {
      if j: nat :| Live(db', j) && db'.clauses[j] == c {
        assert Live(db, j);
      }
    }
    forall c | c in Formula(db) ensures c in Formula(db') + {db.clauses[i]} {
      if j: nat :| Live(db, j) && db.clauses[j] == c {
        assert j == i || Live(db', j);
      }
    }
  }

  /** A clause with the pivot moves to the stack. */
  lemma PivotStep(orig: set<Clause>, db: Db, es: seq<Entry>, i: nat, p: Lit)
    requires Simplified(orig, Formula(db), es)
    requires WfDb(db) && Live(db, i) && p in db.clauses[i] && AllDone(db, i, p) && PivotFree(db.units, p.v)
    ensures Simplified(orig, Formula(MarkGarbage(db, i)), es + [Entry([p], db.clauses[i])])
  {
    hide Formula, Simplified, AllDone, Redundant, PivotFree, WfDb;
    PivotRedundant(db, i, p);
    GarbageFormula(db, i);
    WeakenStep(orig, Formula(db), Formula(MarkGarbage(db, i)), es, Entry([p], db.clauses[i]));
  }

  lemma AllDoneGarbage(db: Db, i: nat, j: nat, p: Lit)
    requires WfDb(db) && i < |db.clauses| && Mentions(db.clauses[i], p.v) && AllDone(db, j, p) && j < |db.clauses|
    ensures AllDone(MarkGarbage(db, i), j, p)
  {
    hide PairDone, Mentions, WfClause;
    var db' := MarkGarbage(db, i);
    GarbageGrown(db, i, p.v);
    hide Grown;
    forall k: nat | Live(db', k) && Neg(p) in db'.clauses[k] ensures PairDone(db', j, k, p) {
      assert Live(db, k);
      GrownPair(db, db', j, k, p);
    }
  }

  // ----- the eliminator -----

  function Occ(occs: map<Lit, seq<nat>>, l: Lit): (r: seq<nat>) {
    if l in occs then occs[l] else []
  }

  ghost predicate OccPair(db: Db, occs: map<Lit, seq<nat>>, l: Lit, i: nat) {
    && (i in Occ(occs, l) ==> i < |db.clauses| && l in db.clauses[i])
    && (Live(db, i) && l in db.clauses[i] ==> i in Occ(occs, l))
  }

  /** Full occurrence lists. */
  ghost predicate OccsOk(db: Db, occs: map<Lit, seq<nat>>) {
    (forall l: Lit, i: nat :: OccPair(db, occs, l, i)) && forall l: Lit :: Distinct(Occ(occs, l))
  }

  lemma OccsGarbage(db: Db, occs: map<Lit, seq<nat>>, i: nat)
    requires OccsOk(db, occs) && i < |db.garbage|
    ensures OccsOk(MarkGarbage(db, i), occs)
  {
    var db' := MarkGarbage(db, i);
    forall l: Lit, j: nat ensures OccPair(db', occs, l, j) {
      assert OccPair(db, occs, l, j);
    }
  }

  lemma OccsSame(db: Db, db': Db, occs: map<Lit, seq<nat>>)
    requires OccsOk(db, occs) && db'.clauses == db.clauses && db'.garbage == db.garbage
    ensures OccsOk(db', occs)
  {
    forall l: Lit, j: nat ensures OccPair(db', occs, l, j) {
      assert OccPair(db, occs, l, j);
    }
  }

  lemma OccsAdd(db: Db, occs: map<Lit, seq<nat>>, occs': map<Lit, seq<nat>>, c: Clause)
    requires |db.garbage| == |db.clauses| && OccsOk(db, occs)
    requires forall l: Lit :: Occ(occs', l) == if l in c then Occ(occs, l) + [|db.clauses|] else Occ(occs, l)
    ensures OccsOk(AddClause(db, c), occs')
  {
    hide Occ;
    var db' := AddClause(db, c);
    forall l: Lit, i: nat ensures OccPair(db', occs', l, i) {
      assert OccPair(db, occs, l, i);
      assert i in Occ(occs', l) <==> i in Occ(occs, l) || (i == |db.clauses| && l in c);
    }
    forall l: Lit ensures Distinct(Occ(occs', l)) {
      assert OccPair(db, occs, l, |db.clauses|) && Distinct(Occ(occs, l));
    }
  }

  lemma OccsStart()
    ensures OccsOk(Db([], [], {}, false), map[])
  {
  }

  lemma StartFormula(db: Db)
    requires db.units == {} && !db.unsat && |db.garbage| == |db.clauses| && forall i | 0 <= i < |db.garbage| :: !db.garbage[i]
    ensures Formula(db) == ToSet(db.clauses)
  {
    forall c | c in db.clauses ensures c in Formula(db) {
      var i :| 0 <= i < |db.clauses| && db.clauses[i] == c;
      assert Live(db, i);
    }
  }

  /** The live clauses of an occurrence list. */
  method Flush(db: Db, os: seq<nat>, ghost l: Lit) returns (r: seq<nat>)
    requires Lists(db, l, os) && |db.garbage| == |db.clauses|
    ensures forall i: nat :: i in r <==> Live(db, i) && l in db.clauses[i]
    ensures Distinct(os) ==> Distinct(r)
  {
    r := [];
    for a := 0 to |os|
      invariant forall i: nat :: i in r <==> i in os[..a] && Live(db, i)
      invariant Distinct(os) ==> Distinct(r)
    {
      ListsIn(db, l, os, a);
      assert os[..a + 1] == os[..a] + [os[a]];
      assert Distinct(os) ==> forall x | 0 <= x < |r| :: r[x] != os[a] by {
        assert forall x | 0 <= x < |r| :: r[x] in r;
      }
      if !db.garbage[os[a]] {
        r := r + [os[a]];
      }
    }
    assert os[..|os|] == os;
  }

  lemma OccsFlush(db: Db, occs: map<Lit, seq<nat>>, p: Lit, r: seq<nat>)
    requires OccsOk(db, occs) && Distinct(r) && forall i: nat :: i in r <==> Live(db, i) && p in db.clauses[i]
    ensures OccsOk(db, occs[p := r])
  {
    var occs' := occs[p := r];
    assert forall l: Lit :: Occ(occs', l) == if l == p then r else Occ(occs, l);
    forall l: Lit, i: nat ensures OccPair(db, occs', l, i) {
      assert OccPair(db, occs, l, i);
    }
  }

  class Eliminator {
    var db: Db
    var occs: map<Lit, seq<nat>>
    const external: External
    ghost const original: set<Clause>

    ghost predicate Valid()
      reads this, external
    {
      && WfDb(db) && OccsOk(db, occs) && external.Valid()
      && Simplified(original, Formula(db), external.entries)
    }

    constructor (cs: seq<Clause>)
      requires forall c | c in cs :: WfClause(c)
      ensures Valid() && original == ToSet(cs) && external.entries == [] && fresh(external)
    {
      hide OccsOk, WfClause;
      var d := Db([], [], {}, false);
      var o: map<Lit, seq<nat>> := map[];
      OccsStart();
      for i := 0 to |cs|
        invariant d == Db(cs[..i], seq(i, _ => false), {}, false)
        invariant OccsOk(d, o)
      {
        assert cs[i] in cs;
        var o' := PushOccs(o, cs[i], i);
        OccsAdd(d, o, o', cs[i]);
        assert AddClause(d, cs[i]) == Db(cs[..i + 1], seq(i + 1, _ => false), {}, false);
        d, o := AddClause(d, cs[i]), o';
      }
      assert cs[..|cs|] == cs;
      external := new External();
      db, occs := d, o;
      original := ToSet(cs);
      StartFormula(d);
      SimplifiedStart(ToSet(cs));
    }

    /** `new_resolved_irredundant_clause` and `elim_update_added_clause`. */
    method NewClause(c: Clause)
      requires Valid() && WfClause(c) && forall m: Assignment | Models(m, db) :: SatClause(m, c)
      modifies this`db, this`occs
      ensures Valid() && db == AddClause(old(db), c)
    {
      hide OccsOk, Formula, Simplified, Models, WfClause, Occ;
      ImpliedClause(db, c);
      EquivalentStep(original, db, AddClause(db, c), external.entries);
      hide Equivalent;
      var occs' := PushOccs(occs, c, |db.clauses|);
      OccsAdd(db, occs, occs', c);
      db, occs := AddClause(db, c), occs';
    }

    method DropClause(i: nat)
      requires Valid() && i < |db.clauses| && Equivalent(db, MarkGarbage(db, i))
      modifies this`db
      ensures Valid() && db == MarkGarbage(old(db), i)
    {
      hide OccsOk, Formula, Simplified, Equivalent, WfClause;
      OccsGarbage(db, occs, i);
      EquivalentStep(original, db, MarkGarbage(db, i), external.entries);
      db := MarkGarbage(db, i);
    }

    method AddUnit(u: Lit)
      requires Valid() && Neg(u) !in db.units && Equivalent(db, AssignUnit(db, u))
      modifies this`db
      ensures Valid() && db == AssignUnit(old(db), u)
    {
      hide OccsOk, Formula, Simplified, Equivalent, WfClause;
      EquivalentStep(original, db, AssignUnit(db, u), external.entries);
      OccsSame(db, AssignUnit(db, u), occs);
      db := AssignUnit(db, u);
    }

    method LearnEmptyClause()
      requires Valid() && Equivalent(db, LearnEmpty(db))
      modifies this`db
      ensures Valid() && db == LearnEmpty(old(db))
    {
      hide OccsOk, Formula, Simplified, Equivalent, WfClause;
      EquivalentStep(original, db, LearnEmpty(db), external.entries);
      OccsSame(db, LearnEmpty(db), occs);
      db := LearnEmpty(db);
    }

    /** `elim_on_the_fly_self_subsumption`. */
    method OnTheFly(i: nat, p: Lit, ghost k: nat)
      requires Valid() && Pair(db, i, k, p) && !SatisfiedBut(db.clauses[i], p, db.units)
      requires Subset(Residue(db.clauses[k], Neg(p), db.units), Residue(db.clauses[i], p, db.units))
      modifies this`db, this`occs
      ensures Valid() && db == Strengthen(old(db), i, p)
    {
      hide OccsOk, Formula, Simplified, Equivalent, Models, SatisfiedBut;
      var _, lits, _ := FirstAntecedent(db.clauses[i], p, db.units);
      ResidueWf(db.clauses[i], p, db.units);
      StrengthenFollows(db, i, k, p);
      hide WfClause, Subset, Residue;
      NewClause(lits);
      StrengthenDrop(old(db), i, p);
      DropClause(i);
    }

    /** A satisfied clause, an empty clause or a unit found by `elim_propagate`. */
    method PropagateClause(i: nat, work: seq<Lit>) returns (work': seq<Lit>)
      requires Valid() && i < |db.clauses| && forall l | l in work :: l in db.units
      modifies this`db
      ensures Propagated(old(db), work, db, work') && Valid()
    {
      hide OccsOk, Formula, Simplified, Equivalent, WfClause;
      EquivalentSelf(db);
      work' := work;
      if db.garbage[i] {
        return;
      }
      var st := Scan(db.clauses[i], db.units);
      match st {
        case Satisfied(l) =>
          SatisfiedGarbage(db, i, l);
          DropClause(i);
        case Falsified =>
          FalsifiedEmpty(db, i);
          LearnEmptyClause();
        case UnitLeft(l) =>
          UnitLeftFollows(db, i, l);
          NewUnitMeasure(db, i, l);
          AddUnit(l);
          work' := work + [l];
        case Open =>
      }
    }

    /** `elim_propagate`. */
    method ElimPropagate(root: Lit)
      requires Valid() && root in db.units
      modifies this`db
      ensures Valid() && Equivalent(old(db), db) && Settled(old(db), db)
    {
      hide OccsOk, Formula, Simplified, Equivalent, WfClause, Unassigned, HasUnit, Settled;
      EquivalentSelf(db);
      SettledSelf(db);
      var work := [root];
      var i := 0;
      while i < |work| && !db.unsat
        invariant Valid() && Equivalent(old(db), db) && Settled(old(db), db)
        invariant i <= |work| && forall l | l in work :: l in db.units
        decreases Unassigned(db), |work| - i
      {
        ghost var db0, work0 := db, work;
        var lit := work[i];
        i := i + 1;
        var ns := Occ(occs, Neg(lit));
        var a := 0;
        EquivalentSelf(db);
        SettledSelf(db);
        while a < |ns| && !db.unsat
          invariant Valid() && a <= |ns| && ns == Occ(occs, Neg(lit)) && Propagated(db0, work0, db, work)
        {
          OccsIn(db, occs, Neg(lit), ns[a]);
          ghost var db1, work1 := db, work;
          work := PropagateClause(ns[a], work);
          PropagatedTransitive(db0, work0, db1, work1, db, work);
          a := a + 1;
        }
        if !db.unsat {
          var ps := Occ(occs, lit);
          for b := 0 to |ps|
            invariant Valid() && ps == Occ(occs, lit) && Propagated(db0, work0, db, work) && lit in db.units
          {
            OccsIn(db, occs, lit, ps[b]);
            if !db.garbage[ps[b]] {
              SatisfiedGarbage(db, ps[b], lit);
              UnitIn(db.clauses[ps[b]], db.units, lit);
              PropagatedGarbage(db0, work0, db, work, ps[b]);
              DropClause(ps[b]);
            }
          }
        }
        EquivalentTransitive(old(db), db0, db);
        SettledTransitive(old(db), db0, db);
      }
    }

    /** `resolve_clauses` once the smaller clause comes first, up to the propagation of a unit. */
    method ResolveOrdered(i: nat, p: Lit, k: nat) returns (res: bool, clause: Clause, unit: Option<Lit>)
      requires Valid() && Pair(db, i, k, p)
      modifies this`db, this`occs
      ensures Valid() && Equivalent(old(db), db) && old(db).clauses <= db.clauses
      ensures !res ==> ResolveOk(old(db), db, i, k, p) && (unit.Some? ==> unit.value in db.units)
      ensures res ==> db == old(db) && NewResolvent(db, i, k, p, clause)
      ensures res ==> Proper(db, i, k, p) && ToSet(clause) == ResolventLits(db, i, k, p)
    {
      hide Proper, ResolventLits, OccsOk, Formula, Simplified, Equivalent, WfClause, PairDone, Grown, Merged, Residue, Extra, Clash, SatisfiedBut, Subset, NewResolvent;
      ghost var db0 := db;
      EquivalentSelf(db);
      var c, d := db.clauses[i], db.clauses[k];
      var satisfied, lits, s := FirstAntecedent(c, p, db.units);
      if satisfied {
        OutcomeSatisfied(db, i, k, p);
        DropClause(i);
        return false, [], None;
      }
      var satisfied', tautological, merged, t := SecondAntecedent(d, Neg(p), lits, db.units);
      if satisfied' {
        SwapPair(db, i, k, p);
        OutcomeSatisfied(db, k, i, Neg(p));
        ResolveOkSwap(db, MarkGarbage(db, k), k, i, Neg(p));
        DropClause(k);
        return false, [], None;
      }
      if tautological {
        OutcomeTautological(db, i, k, p);
        return false, [], None;
      }
      MergedIs(db, i, k, p, lits, merged);
      var size := |merged|;
      if size == 0 {
        OutcomeEmpty(db, i, k, p);
        LearnEmptyClause();
        return false, [], None;
      }
      if size == 1 {
        var u := merged[0];
        UnitFresh(db, i, k, p, u);
        OutcomeUnit(db, i, k, p, u);
        AddUnit(u);
        return false, [], Some(u);
      }
      SizeTests(db, i, k, p);
      SwapPair(db, i, k, p);
      if s > size && t > size {
        OutcomeDouble(db, i, k, p);
        DoubleDrop(db, i, k, p);
        OnTheFly(i, p, k);
        DropClause(k);
        return false, [], None;
      }
      if s > size {
        OutcomeStrengthen(db, i, k, p);
        OnTheFly(i, p, k);
        return false, [], None;
      }
      if t > size {
        OutcomeStrengthen(db, k, i, Neg(p));
        ResolveOkSwap(db, Strengthen(db, k, Neg(p)), k, i, Neg(p));
        OnTheFly(k, Neg(p), i);
        return false, [], None;
      }
      ResolventNew(db, i, k, p);
      NewResolventWf(db, i, k, p, merged);
      ResolventProper(db, i, k, p, merged);
      return true, merged, None;
    }

    /** `resolve_clauses`. */
    method ResolveClauses(c: nat, pivot: Lit, d: nat, eager: bool) returns (res: bool, clause: Clause)
      requires Valid() && c < |db.clauses| && d < |db.clauses|
      requires pivot in db.clauses[c] && Neg(pivot) in db.clauses[d]
      modifies this`db, this`occs
      ensures Valid() && Equivalent(old(db), db) && old(db).clauses <= db.clauses
      ensures !eager && !res ==> ResolveOk(old(db), db, c, d, pivot)
      ensures !res ==> Onward(old(db), db, pivot.v) && PairDone(db, c, d, pivot)
      ensures res ==> db == old(db) && NewResolvent(db, c, d, pivot, clause)
      ensures res ==> Proper(db, c, d, pivot) && ToSet(clause) == ResolventLits(db, c, d, pivot)
      ensures Later(old(db), db)
    {
      LaterSelf(db);
      hide Later, Proper, ResolventLits, OccsOk, Formula, Simplified, Equivalent, WfClause, Grown, NewResolvent, Mentions, Onward, Settled, PairDone;
      EquivalentSelf(db);
      ghost var db0 := db;
      var unit: Option<Lit> := None;
      if db.garbage[c] || db.garbage[d] {
        GrownSelf(db, pivot.v);
        GarbagePair(db, c, d, pivot);
        res, clause := false, [];
      } else if |db.clauses[c]| > |db.clauses[d]| {
        SwapPair(db, c, d, pivot);
        res, clause, unit := ResolveOrdered(d, Neg(pivot), c);
        if res {
          NewResolventSwap(db, d, c, Neg(pivot), clause);
          ProperSwap(db, d, c, Neg(pivot));
        } else {
          ResolveOkSwap(db0, db, d, c, Neg(pivot));
        }
      } else {
        res, clause, unit := ResolveOrdered(c, pivot, d);
      }
      if !res {
        GrownOnward(db0, db, pivot.v);
        GrownLater(db0, db, pivot.v);
        if eager && unit.Some? {
          ghost var db1 := db;
          ElimPropagate(unit.value);
          EquivalentTransitive(db0, db1, db);
          SettledOnward(db1, db, pivot.v);
          OnwardTransitive(db0, db1, db, pivot.v);
          OnwardPair(db1, db, c, d, pivot);
          SettledClauses(db1, db);
          SettledLater(db1, db);
          LaterTransitive(db0, db1, db);
        }
      }
    }

    /**
     `elim_add_resolvents`: unless the formula became unsatisfiable, every resolvent on the pivot
     holds in all models of the clauses without the pivot.
     */
    method AddResolvents(pivot: Lit)
      requires Valid() && PivotFree(db.units, pivot.v)
      modifies this`db, this`occs
      ensures Valid() && Equivalent(old(db), db) && PivotFree(db.units, pivot.v)
      ensures !db.unsat ==> forall i: nat | Live(db, i) && pivot in db.clauses[i] :: AllDone(db, i, pivot)
    {
      hide OccsOk, Formula, Simplified, Equivalent, Grown, PairsDone, Lists, PivotFree, AllDone, PairDone, WfClause;
      EquivalentSelf(db);
      var ps, ns := Occ(occs, pivot), Occ(occs, Neg(pivot));
      OccsAll(db, occs, pivot, ps);
      OccsAll(db, occs, Neg(pivot), ns);
      PairsStart(db, ps, ns, pivot);
      var a := 0;
      while a < |ps| && !db.unsat
        invariant Adding(old(db), db, pivot, ps, ns, a, 0) && Valid()
      {
        ListsIn(db, pivot, ps, a);
        if db.garbage[ps[a]] {
          PairsSkip(db, ps, ns, a, pivot);
        } else {
          var b := 0;
          while b < |ns| && !db.unsat
            invariant Adding(old(db), db, pivot, ps, ns, a, b) && a < |ps| && Valid()
          {
            ListsIn(db, pivot, ps, a);
            ListsIn(db, Neg(pivot), ns, b);
            ghost var db1 := db;
            AddResolvent(ps[a], pivot, ns[b]);
            AddingStep(old(db), db1, db, pivot, ps, ns, a, b);
            b := b + 1;
          }
          if !db.unsat {
            PairsRow(db, ps, ns, a, pivot);
          }
        }
        a := a + 1;
      }
      if !db.unsat {
        PairsEnd(db, ps, ns, pivot);
      }
    }

    /** One loop of `mark_eliminated_clauses_as_garbage`. */
    method PushEliminated(p: Lit)
      requires Valid() && PivotFree(db.units, p.v)
      requires forall i: nat | Live(db, i) && p in db.clauses[i] :: AllDone(db, i, p)
      modifies this`db, external`extension, external`entries
      ensures Valid() && Dropped(old(db), db, p)
      ensures forall i: nat | Live(db, i) :: p !in db.clauses[i]
      ensures old(external.entries) <= external.entries
    {
      hide OccsOk, Formula, Simplified, AllDone, WfClause, PivotFree;
      var ps := Occ(occs, p);
      OccsAll(db, occs, p, ps);
      for a := 0 to |ps|
        invariant Valid() && Dropped(old(db), db, p) && Lists(db, p, ps) && ps == Occ(occs, p)
        invariant forall i: nat | Live(db, i) && p in db.clauses[i] :: AllDone(db, i, p)
        invariant forall x | 0 <= x < a :: !Live(db, ps[x])
        invariant old(external.entries) <= external.entries
      {
        var i := ps[a];
        ListsIn(db, p, ps, a);
        if !db.garbage[i] {
          PivotStep(original, db, external.entries, i, p);
          OccsGarbage(db, occs, i);
          DroppedStep(db, i, p, ps);
          external.PushClause(db.clauses[i], p);
          db := MarkGarbage(db, i);
        }
      }
      ListsGone(db, p, ps);
    }

    /**
     `mark_eliminated_clauses_as_garbage`: the clauses with the pivot go to the extension stack,
     first the positive ones, and no clause with the variable is left.
     */
    method MarkEliminated(pivot: Lit)
      requires Valid() && PivotFree(db.units, pivot.v)
      requires forall i: nat | Live(db, i) && pivot in db.clauses[i] :: AllDone(db, i, pivot)
      modifies this`db, this`occs, external`extension, external`entries
      ensures Valid() && Implies(Formula(old(db)), Formula(db)) && PivotFree(db.units, pivot.v)
      ensures forall i: nat | Live(db, i) :: !Mentions(db.clauses[i], pivot.v)
      ensures old(external.entries) <= external.entries
    {
      hide OccsOk, Formula, Simplified, AllDone, WfClause, PivotFree;
      PushEliminated(pivot);
      NothingLeft(db, pivot);
      ghost var db1 := db;
      PushEliminated(Neg(pivot));
      DroppedImplies(old(db), db1, db, pivot);
      EraseOccs(db, occs, pivot);
      EraseOccs(db, occs[pivot := []], Neg(pivot));
      occs := occs[pivot := []][Neg(pivot) := []];
    }

    /** `flush_occs`: garbage leaves the occurrence list. */
    method FlushOccs(l: Lit) returns (n: nat)
      requires Valid()
      modifies this`occs
      ensures Valid() && n == |Occ(occs, l)| && forall i: nat :: i in Occ(occs, l) <==> Live(db, i) && l in db.clauses[i]
      ensures forall k: Lit | k != l :: Occ(occs, k) == Occ(old(occs), k)
    {
      hide OccsOk, Formula, Simplified, WfClause, Lists;
      OccsAll(db, occs, l, Occ(occs, l));
      var r := Flush(db, Occ(occs, l), l);
      OccsFlush(db, occs, l, r);
      occs := occs[l := r];
      n := |r|;
    }

    /**
     `elim_resolvents_are_bounded`: only rewrites the formula. It succeeds with an unassigned pivot
     when all but a bounded number of resolvents hold anyway, and fails only with a unit for the
     pivot, with a resolvent that is too long, or with too many resolvents.
     */
    method ResolventsAreBounded(pivot: Lit, elimBound: int, sizeLimit: nat) returns (ok: bool, ghost counted: set<(nat, nat)>)
      requires Valid() && PivotFree(db.units, pivot.v) && !db.unsat
      modifies this`db, this`occs
      ensures Valid() && Equivalent(old(db), db) && Later(old(db), db)
      ensures ok ==> !db.unsat && PivotFree(db.units, pivot.v)
      ensures ok ==> counted == {} || |counted| <= |Occ(old(occs), pivot)| + |Occ(old(occs), Neg(pivot))| + elimBound
      ensures ok ==> Handled(db, pivot, counted)
      ensures !ok ==> Unbounded(old(db), db, pivot, |Occ(old(occs), pivot)|, |Occ(old(occs), Neg(pivot))|, elimBound, sizeLimit)
    {
      hide OccsOk, Formula, Simplified, Equivalent, PivotFree, NewResolvent, WfClause, ResolveOk, Bounded, Onward, PairDone, Lists,
        Later, Proper, ProperPairs, ResolventLits, Earlier, AllProper, TooLong, Handled, Distinct;
      EquivalentSelf(db);
      LaterSelf(db);
      counted := {};
      var ps, ns := Occ(occs, pivot), Occ(occs, Neg(pivot));
      OccsAll(db, occs, pivot, ps);
      OccsAll(db, occs, Neg(pivot), ns);
      BoundedStart(db, ps, ns, pivot);
      CountStart(db, ps, ns, pivot);
      if ps == [] || ns == [] {
        BoundedEmpty(db, ps, ns, pivot);
        return elimBound >= 0, counted;
      }
      var bound := |ps| + |ns| + elimBound;
      var resolvents := 0;
      for a := 0 to |ps|
        invariant Valid() && Equivalent(old(db), db) && PivotFree(db.units, pivot.v) && !db.unsat && Later(old(db), db)
        invariant Bounded(db, ps, ns, a, 0, pivot, counted) && |counted| == resolvents && (resolvents <= bound || resolvents == 0)
        invariant Earlier(counted, ps, ns, a, 0) && AllProper(old(db), counted, pivot)
      {
        BoundedIn(db, ps, ns, a, 0, pivot, counted, a);
        if db.garbage[ps[a]] {
          BoundedSkip(db, ps, ns, a, pivot, counted);
          EarlierRow(counted, ps, ns, a, 0);
          continue;
        }
        for b := 0 to |ns|
          invariant Valid() && Equivalent(old(db), db) && PivotFree(db.units, pivot.v) && !db.unsat && Later(old(db), db)
          invariant Bounded(db, ps, ns, a, b, pivot, counted) && |counted| == resolvents && (resolvents <= bound || resolvents == 0)
          invariant Earlier(counted, ps, ns, a, b) && AllProper(old(db), counted, pivot)
        {
          ghost var db1 := db;
          BoundedIn(db, ps, ns, a, b, pivot, counted, a);
          BoundedInNeg(db, ps, ns, a, b, pivot, counted, b);
          var res, clause := ResolveClauses(ps[a], pivot, ns[b], true);
          EquivalentTransitive(old(db), db1, db);
          LaterTransitive(old(db), db1, db);
          if res {
            OldOcc(old(db), old(occs), pivot, ps[a]);
            OldOcc(old(db), old(occs), Neg(pivot), ns[b]);
            BoundedCount(db, ps, ns, a, b, pivot, counted);
            CountOne(old(db), db, counted, ps, ns, a, b, pivot, clause);
            counted := counted + {(ps[a], ns[b])};
            resolvents := resolvents + 1;
            if |clause| > sizeLimit || resolvents > bound {
              CountAll(old(db), counted, pivot);
              LongOne(old(db), ps[a], ns[b], pivot, |clause|, sizeLimit);
              return false, counted;
            }
          } else if db.unsat || pivot in db.units || Neg(pivot) in db.units {
            return false, counted;
          } else {
            StillFree(db.units, pivot);
            BoundedStep(db1, db, ps, ns, a, b, pivot, counted);
            EarlierNext(counted, ps, ns, a, b);
          }
        }
        BoundedRow(db, ps, ns, a, pivot, counted);
        EarlierRow(counted, ps, ns, a, |ns|);
      }
      BoundedEnd(db, ps, ns, pivot, counted);
      assert resolvents == 0 ==> counted == {};
      return true, counted;
    }

    /**
     `try_to_eliminate_variable` without gates: the formula keeps its meaning through the stack. An
     unassigned pivot is refused only for the reasons `Refused` lists; an eliminated one left `mid`,
     where all but a bounded number of resolvents held.
     */
    method TryToEliminate(pivot0: Lit, elimBound: int, sizeLimit: nat, occLimit: nat)
        returns (eliminated: bool, ghost mid: Db, ghost counted: set<(nat, nat)>)
      requires Valid() && !db.unsat
      modifies this`db, this`occs, external`extension, external`entries
      ensures Valid() && Implies(Formula(old(db)), Formula(db))
      ensures eliminated && !db.unsat ==> PivotFree(db.units, pivot0.v)
      ensures eliminated && !db.unsat ==> forall i: nat | Live(db, i) :: !Mentions(db.clauses[i], pivot0.v)
      ensures old(external.entries) <= external.entries && (!eliminated ==> external.entries == old(external.entries))
      ensures pivot0 in old(db).units || Neg(pivot0) in old(db).units ==> !eliminated
      ensures pivot0 !in old(db).units && Neg(pivot0) !in old(db).units && !eliminated ==>
                Refused(old(db), db, Rarer(old(db), pivot0), elimBound, sizeLimit, occLimit)
      ensures eliminated ==> Later(old(db), mid) && Equivalent(old(db), mid)
      ensures eliminated ==> Admitted(old(db), mid, Rarer(old(db), pivot0), counted, elimBound, occLimit)
    {
      hide OccsOk, Formula, Simplified, PivotFree, AllDone, Implies, Equivalent, Mentions, WfClause, LiveWith, Unbounded, Handled, Later;
      eliminated, mid, counted := false, db, {};
      var pivot := pivot0;
      ImpliesSelf(Formula(db));
      if pivot in db.units || Neg(pivot) in db.units {
        return;
      }
      StillFree(db.units, pivot);
      var pos := FlushOccs(pivot);
      var neg := FlushOccs(Neg(pivot));
      LiveCount(db, occs, pivot);
      LiveCount(db, occs, Neg(pivot));
      if pos > neg {
        pivot, pos, neg := Neg(pivot), neg, pos;
      }
      if pos > 0 && neg > occLimit {
        return;
      }
      var ok;
      ok, counted := ResolventsAreBounded(pivot, elimBound, sizeLimit);
      EquivalentImplies(old(db), db);
      mid := db;
      if ok {
        eliminated := true;
        ghost var db1 := db;
        AddResolvents(pivot);
        EquivalentTransitive(old(db), db1, db);
        EquivalentImplies(old(db), db);
        if !db.unsat {
          ghost var db2 := db;
          MarkEliminated(pivot);
          ImpliesTransitive(Formula(old(db)), Formula(db2), Formula(db));
        }
      }
    }

    /** If the internal values give a model of what is left, it is extended to a model of the original formula. */
    method ExtendModel(internal: set<Lit>, e2i: map<nat, Lit>, maxVar: nat)
      requires Valid() && Models(Mapped(external.vals, internal, e2i, maxVar), db)
      modifies external`vals
      ensures Sat(external.vals, original)
    {
      FormulaModels(Mapped(external.vals, internal, e2i, maxVar), db);
      hide Formula, OccsOk, Models;
      external.Extend(internal, e2i, maxVar);
    }

    /** One round of the inner loop of `elim_add_resolvents`. */
    method AddResolvent(c: nat, pivot: Lit, d: nat)
      requires Valid() && c < |db.clauses| && d < |db.clauses|
      requires pivot in db.clauses[c] && Neg(pivot) in db.clauses[d]
      modifies this`db, this`occs
      ensures Valid() && ResolveOk(old(db), db, c, d, pivot)
    {
      hide OccsOk, Formula, Simplified, Equivalent, Grown, Mentions, NewResolvent, PairDone;
      GrownSelf(db, pivot.v);
      if db.garbage[d] {
        GarbagePair(db, c, d, pivot);
        EquivalentSelf(db);
        return;
      }
      var res, clause := ResolveClauses(c, pivot, d, false);
      if res {
        OutcomeAdded(db, c, d, pivot, clause);
        NewClause(clause);
      }
    }
  }

  // ----- unit propagation during elimination -----

  datatype Status = Satisfied(l: Lit) | Falsified | UnitLeft(l: Lit) | Open

  method Scan(c: Clause, units: set<Lit>) returns (st: Status)
    ensures st.Satisfied? ==> st.l in c && st.l in units
    ensures st.Falsified? ==> forall l | l in c :: Neg(l) in units
    ensures st.UnitLeft? ==> st.l in c && st.l !in units && Neg(st.l) !in units
    ensures st.UnitLeft? ==> forall l | l in c && l != st.l :: Neg(l) in units
  {
    st := Falsified;
    for i := 0 to |c|
      invariant st.Falsified? ==> forall l | l in c[..i] :: Neg(l) in units
      invariant st.UnitLeft? ==> st.l in c && st.l !in units && Neg(st.l) !in units
      invariant st.UnitLeft? ==> forall l | l in c[..i] && l != st.l :: Neg(l) in units
      invariant !st.Satisfied?
    {
      var lit := c[i];
      assert forall l | l in c[..i + 1] :: l in c[..i] || l == lit;
      if Neg(lit) in units {
      } else if lit in units {
        return Satisfied(lit);
      } else if st.Falsified? {
        st := UnitLeft(lit);
      } else {
        st := Open;
      }
    }
    assert c[..|c|] == c;
  }

  lemma FalsifiedEmpty(db: Db, i: nat)
    requires Live(db, i) && forall l | l in db.clauses[i] :: Neg(l) in db.units
    ensures Equivalent(db, LearnEmpty(db))
  {
    assert forall l: Lit, m: Assignment :: True(m, Neg(l)) == !True(m, l);
    assert forall m: Assignment :: !Models(m, db);
  }

  lemma UnitLeftFollows(db: Db, i: nat, u: Lit)
    requires Live(db, i) && u in db.clauses[i] && forall l | l in db.clauses[i] && l != u :: Neg(l) in db.units
    ensures Equivalent(db, AssignUnit(db, u))
  {
    forall m: Assignment | Models(m, db) ensures True(m, u) {
      var l :| l in db.clauses[i] && True(m, l);
      assert l != u ==> True(m, Neg(l));
    }
    ImpliedUnit(db, u);
  }

  ghost function Lits(cs: seq<Clause>): (r: set<Lit>) {
    set i, l | 0 <= i < |cs| && l in cs[i] :: l
  }

  ghost function Unassigned(db: Db): (n: nat) {
    |Lits(db.clauses) - db.units|
  }

  lemma NewUnitMeasure(db: Db, i: nat, u: Lit)
    requires i < |db.clauses| && u in db.clauses[i] && u !in db.units
    ensures Unassigned(AssignUnit(db, u)) < Unassigned(db)
  {
    assert u in Lits(db.clauses);
    assert Lits(db.clauses) - (db.units + {u}) == Lits(db.clauses) - db.units - {u};
  }

  /** What a piece of unit propagation may do. */
  ghost predicate Propagated(db: Db, work: seq<Lit>, db': Db, work': seq<Lit>) {
    && Equivalent(db, db') && Settled(db, db')
    && (forall l | l in work' :: l in db'.units) && work <= work'
    && (Unassigned(db') < Unassigned(db) || (Unassigned(db') == Unassigned(db) && work' == work))
  }

  lemma EquivalentSelf(db: Db)
    ensures Equivalent(db, db)
  {
  }

  lemma PropagatedTransitive(a: Db, wa: seq<Lit>, b: Db, wb: seq<Lit>, c: Db, wc: seq<Lit>)
    requires Propagated(a, wa, b, wb) && Propagated(b, wb, c, wc)
    ensures Propagated(a, wa, c, wc)
  {
    EquivalentTransitive(a, b, c);
    SettledTransitive(a, b, c);
    hide Equivalent, Unassigned, HasUnit;
  }

  lemma PropagatedGarbage(a: Db, wa: seq<Lit>, b: Db, wb: seq<Lit>, i: nat)
    requires Propagated(a, wa, b, wb) && i < |b.garbage| && Equivalent(b, MarkGarbage(b, i)) && HasUnit(b.clauses[i], b.units)
    ensures Propagated(a, wa, MarkGarbage(b, i), wb)
  {
    EquivalentTransitive(a, b, MarkGarbage(b, i));
    SettledTransitive(a, b, MarkGarbage(b, i));
    hide Equivalent, HasUnit;
  }

  lemma OccsIn(db: Db, occs: map<Lit, seq<nat>>, l: Lit, i: nat)
    requires OccsOk(db, occs) && i in Occ(occs, l)
    ensures i < |db.clauses| && l in db.clauses[i]
  {
    assert OccPair(db, occs, l, i);
  }

  lemma StrengthenFollows(db: Db, i: nat, k: nat, p: Lit)
    requires Pair(db, i, k, p) && Subset(Residue(db.clauses[k], Neg(p), db.units), Residue(db.clauses[i], p, db.units))
    ensures forall m: Assignment | Models(m, db) :: SatClause(m, Residue(db.clauses[i], p, db.units))
  {
    var c, d := db.clauses[i], db.clauses[k];
    forall m: Assignment | Models(m, db) ensures SatClause(m, Residue(c, p, db.units)) {
      MergedFollows(m, db, i, k, p);
      var l :| l in Merged(c, p, d, db.units) && True(m, l);
      assert l in Residue(c, p, db.units);
    }
  }

  lemma StrengthenDrop(db: Db, i: nat, p: Lit)
    requires WfDb(db) && Live(db, i)
    ensures Equivalent(AddClause(db, Residue(db.clauses[i], p, db.units)), Strengthen(db, i, p))
  {
    var db1 := AddClause(db, Residue(db.clauses[i], p, db.units));
    assert Subset(db1.clauses[|db.clauses|], db1.clauses[i]);
    SubsumedGarbage(db1, i, |db.clauses|);
  }

  lemma DoubleDrop(db: Db, i: nat, k: nat, p: Lit)
    requires Pair(db, i, k, p) && Subset(Residue(db.clauses[i], p, db.units), Residue(db.clauses[k], Neg(p), db.units))
    ensures Equivalent(Strengthen(db, i, p), MarkGarbage(Strengthen(db, i, p), k))
  {
    var db1 := Strengthen(db, i, p);
    var n := |db.clauses|;
    assert Subset(db1.clauses[n], db1.clauses[k]);
    assert i != k by {
      assert Neg(p) !in db.clauses[i];
    }
    SubsumedGarbage(db1, k, n);
  }

  /** A resolvent that has to be added. */
  ghost predicate NewResolvent(db: Db, i: nat, k: nat, p: Lit, r: Clause) {
    && Pair(db, i, k, p) && WfClause(r) && |r| >= 2 && !Mentions(r, p.v)
    && forall m: Assignment | AllTrue(m, db.units) :: SatClause(m, r) <==> Resolved(m, db.clauses[i], p, db.clauses[k])
  }

  lemma NewResolventSwap(db: Db, i: nat, k: nat, p: Lit, r: Clause)
    requires NewResolvent(db, i, k, p, r)
    ensures NewResolvent(db, k, i, Neg(p), r)
  {
    SwapPair(db, i, k, p);
    hide WfDb, WfClause, Resolved, SatClause, Mentions;
    forall m: Assignment | AllTrue(m, db.units) ensures SatClause(m, r) <==> Resolved(m, db.clauses[k], Neg(p), db.clauses[i]) {
      ResolvedSwap(m, db.clauses[i], p, db.clauses[k]);
    }
  }

  lemma GarbagePair(db: Db, i: nat, k: nat, p: Lit)
    requires !Live(db, i) || !Live(db, k)
    ensures PairDone(db, i, k, p)
  {
  }

  /** Adding the resolvent makes the pair done. */
  lemma OutcomeAdded(db: Db, i: nat, k: nat, p: Lit, r: Clause)
    requires NewResolvent(db, i, k, p, r)
    ensures WfClause(r) && forall m: Assignment | Models(m, db) :: SatClause(m, r)
    ensures ResolveOk(db, AddClause(db, r), i, k, p)
  {
    hide WfClause, SatClause, Resolved, Mentions, AllTrue;
    var db' := AddClause(db, r);
    forall m: Assignment | Models(m, db) ensures SatClause(m, r) {
      ResolventFollows(m, db, i, k, p);
    }
    ImpliedClause(db, r);
    AddedGrown(db, r, p.v);
    forall m: Assignment | Rest(m, db', p.v) ensures Resolved(m, db.clauses[i], p, db.clauses[k]) {
      assert Live(db', |db.clauses|) && db'.clauses[|db.clauses|] == r;
    }
    hide Models, Rest, Grown, WfDb;
  }

  ghost predicate PairsDone(db: Db, ps: seq<nat>, ns: seq<nat>, a: nat, b: nat, p: Lit) {
    forall x, y | 0 <= x < |ps| && 0 <= y < |ns| && (x < a || (x == a && y < b)) :: PairDone(db, ps[x], ns[y], p)
  }

  /** The list names clauses with this literal, among them all live ones. */
  ghost predicate Lists(db: Db, l: Lit, ps: seq<nat>) {
    && (forall i | i in ps :: i < |db.clauses| && l in db.clauses[i])
    && (forall i: nat | Live(db, i) && l in db.clauses[i] :: i in ps)
  }

  lemma OccsAll(db: Db, occs: map<Lit, seq<nat>>, l: Lit, ps: seq<nat>)
    requires OccsOk(db, occs) && ps == Occ(occs, l)
    ensures Lists(db, l, ps) && Distinct(ps)
  {
    forall i | i in ps ensures i < |db.clauses| && l in db.clauses[i] {
      assert OccPair(db, occs, l, i);
    }
    forall i: nat | Live(db, i) && l in db.clauses[i] ensures i in ps {
      assert OccPair(db, occs, l, i);
    }
  }

  /** Clauses with the literal p were dropped. */
  ghost predicate Dropped(db: Db, db': Db, p: Lit) {
    && db'.clauses == db.clauses && |db'.garbage| == |db.garbage| && db'.units == db.units && db'.unsat == db.unsat
    && (forall i | 0 <= i < |db.garbage| && db.garbage[i] :: db'.garbage[i])
    && (forall i: nat | Live(db, i) && p !in db.clauses[i] :: Live(db', i))
  }

  lemma DroppedStep(db: Db, i: nat, p: Lit, ps: seq<nat>)
    requires WfDb(db) && i < |db.clauses| && p in db.clauses[i] && Lists(db, p, ps)
    requires forall j: nat | Live(db, j) && p in db.clauses[j] :: AllDone(db, j, p)
    ensures Lists(MarkGarbage(db, i), p, ps)
    ensures forall j: nat | Live(MarkGarbage(db, i), j) && p in db.clauses[j] :: AllDone(MarkGarbage(db, i), j, p)
  {
    hide AllDone, WfClause;
    var db' := MarkGarbage(db, i);
    assert forall j: nat | Live(db', j) :: Live(db, j);
    forall j: nat | Live(db', j) && p in db.clauses[j] ensures AllDone(db', j, p) {
      assert Mentions(db.clauses[i], p.v);
      AllDoneGarbage(db, i, j, p);
    }
  }

  lemma ListsGone(db: Db, p: Lit, ps: seq<nat>)
    requires Lists(db, p, ps) && forall x | 0 <= x < |ps| :: !Live(db, ps[x])
    ensures forall i: nat | Live(db, i) :: p !in db.clauses[i]
  {
  }

  /** Without clauses that contain p, those with its negation have nothing to resolve with. */
  lemma NothingLeft(db: Db, p: Lit)
    requires forall i: nat | Live(db, i) :: p !in db.clauses[i]
    ensures forall i: nat | Live(db, i) && Neg(p) in db.clauses[i] :: AllDone(db, i, Neg(p))
  {
    assert Neg(Neg(p)) == p;
  }

  lemma DroppedImplies(a: Db, b: Db, c: Db, p: Lit)
    requires Dropped(a, b, p) && Dropped(b, c, Neg(p)) && (forall i: nat | Live(b, i) :: p !in b.clauses[i])
    requires forall i: nat | Live(c, i) :: Neg(p) !in c.clauses[i]
    ensures Implies(Formula(a), Formula(c)) && (forall i: nat | Live(c, i) :: !Mentions(c.clauses[i], p.v))
  {
    hide Formula;
    assert forall i: nat | Live(c, i) :: Live(b, i) && Live(a, i);
    forall i: nat | Live(c, i) ensures !Mentions(c.clauses[i], p.v) {
      assert p !in b.clauses[i];
      assert Lit(p.v, true) == p || Lit(p.v, true) == Neg(p);
      assert Lit(p.v, false) == p || Lit(p.v, false) == Neg(p);
    }
    forall m: Assignment | Sat(m, Formula(a)) ensures Sat(m, Formula(c)) {
      FormulaModels(m, a);
      FormulaModels(m, c);
    }
  }

  lemma EraseOccs(db: Db, occs: map<Lit, seq<nat>>, p: Lit)
    requires OccsOk(db, occs) && forall i: nat | Live(db, i) :: p !in db.clauses[i]
    ensures OccsOk(db, occs[p := []])
  {
    var occs' := occs[p := []];
    assert forall l: Lit :: Occ(occs', l) == if l == p then [] else Occ(occs, l);
    forall l: Lit, i: nat ensures OccPair(db, occs', l, i) {
      assert OccPair(db, occs, l, i);
    }
  }

  lemma StillFree(units: set<Lit>, p: Lit)
    requires p !in units && Neg(p) !in units
    ensures PivotFree(units, p.v)
  {
    forall l | l in units ensures l.v != p.v {
      assert l != p && l != Neg(p);
    }
  }

  lemma EquivalentImplies(db: Db, db': Db)
    requires Equivalent(db, db')
    ensures Implies(Formula(db), Formula(db'))
  {
    hide Formula, Models;
    forall m: Assignment | Sat(m, Formula(db)) ensures Sat(m, Formula(db')) {
      FormulaModels(m, db);
      FormulaModels(m, db');
    }
  }

  lemma ImpliesSelf(f: set<Clause>)
    ensures Implies(f, f)
  {
  }

  lemma ImpliesTransitive(a: set<Clause>, b: set<Clause>, c: set<Clause>)
    requires Implies(a, b) && Implies(b, c)
    ensures Implies(a, c)
  {
    hide Sat;
  }

  lemma ListsIn(db: Db, l: Lit, ps: seq<nat>, a: nat)
    requires Lists(db, l, ps) && a < |ps|
    ensures ps[a] < |db.clauses| && l in db.clauses[ps[a]]
  {
  }

  /** State of the double loop of `elim_add_resolvents`. */
  ghost predicate Adding(db0: Db, db: Db, p: Lit, ps: seq<nat>, ns: seq<nat>, a: nat, b: nat) {
    && a <= |ps| && b <= |ns| && Equivalent(db0, db) && PivotFree(db.units, p.v)
    && Lists(db, p, ps) && Lists(db, Neg(p), ns)
    && (!db.unsat ==> PairsDone(db, ps, ns, a, b, p))
  }

  lemma GrownLists(db: Db, db': Db, l: Lit, ps: seq<nat>)
    requires Grown(db, db', l.v) && Lists(db, l, ps)
    ensures Lists(db', l, ps)
  {
    forall i: nat | Live(db', i) && l in db'.clauses[i] ensures i in ps {
      assert Mentions(db'.clauses[i], l.v);
      assert Live(db, i);
    }
  }

  lemma GrownPivotFree(db: Db, db': Db, v: nat)
    requires Grown(db, db', v) && PivotFree(db.units, v)
    ensures PivotFree(db'.units, v)
  {
  }

  lemma AddingStep(db0: Db, db: Db, db': Db, p: Lit, ps: seq<nat>, ns: seq<nat>, a: nat, b: nat)
    requires Adding(db0, db, p, ps, ns, a, b) && a < |ps| && b < |ns| && !db.unsat
    requires ResolveOk(db, db', ps[a], ns[b], p)
    ensures Adding(db0, db', p, ps, ns, a, b + 1)
  {
    EquivalentTransitive(db0, db, db');
    hide Equivalent, PairDone;
    GrownLists(db, db', p, ps);
    GrownLists(db, db', Neg(p), ns);
    GrownPivotFree(db, db', p.v);
    hide Grown, Lists, PivotFree;
    forall x, y | 0 <= x < |ps| && 0 <= y < |ns| && (x < a || (x == a && y < b + 1)) ensures PairDone(db', ps[x], ns[y], p) {
      if x < a || y < b {
        ListsIn(db, p, ps, x);
        ListsIn(db, Neg(p), ns, y);
        GrownPair(db, db', ps[x], ns[y], p);
      }
    }
  }

  // ----- when elimination is refused -----

  /** Some resolvent of two live clauses has too many literals. */
  ghost predicate TooLong(db: Db, p: Lit, sizeLimit: nat) {
    exists i: nat, k: nat | i < |db.clauses| && k < |db.clauses| && Proper(db, i, k, p) :: |ResolventLits(db, i, k, p)| > sizeLimit
  }

  /** Resolving cannot stay within the limits, or the pivot needs no elimination. */
  ghost predicate Unbounded(db0: Db, db: Db, p: Lit, pos: nat, neg: nat, elimBound: int, sizeLimit: nat) {
    || db.unsat || p in db.units || Neg(p) in db.units
    || TooLong(db0, p, sizeLimit)
    || |ProperPairs(db0, p)| > pos + neg + elimBound
    || (elimBound < 0 && (pos == 0 || neg == 0))
  }

  /** All resolvents hold, but for the counted ones. */
  ghost predicate Handled(db: Db, p: Lit, counted: set<(nat, nat)>) {
    forall i: nat, k: nat | Live(db, i) && Live(db, k) && p in db.clauses[i] && Neg(p) in db.clauses[k] ::
      (i, k) in counted || PairDone(db, i, k, p)
  }

  ghost function LiveWith(db: Db, l: Lit): (r: set<nat>) {
    set i: nat | i < |db.clauses| && Live(db, i) && l in db.clauses[i]
  }

  /** The literal of the variable that is in fewer live clauses. */
  ghost function Rarer(db: Db, p: Lit): (r: Lit) {
    if |LiveWith(db, p)| > |LiveWith(db, Neg(p))| then Neg(p) else p
  }

  ghost predicate Refused(db0: Db, db: Db, p: Lit, elimBound: int, sizeLimit: nat, occLimit: nat) {
    var pos, neg := |LiveWith(db0, p)|, |LiveWith(db0, Neg(p))|;
    (pos > 0 && neg > occLimit) || Unbounded(db0, db, p, pos, neg, elimBound, sizeLimit)
  }

  ghost predicate Admitted(db0: Db, mid: Db, p: Lit, counted: set<(nat, nat)>, elimBound: int, occLimit: nat) {
    var pos, neg := |LiveWith(db0, p)|, |LiveWith(db0, Neg(p))|;
    && (pos > 0 ==> neg <= occLimit)
    && Handled(mid, p, counted) && (counted == {} || |counted| <= pos + neg + elimBound)
  }

  lemma LiveCount(db: Db, occs: map<Lit, seq<nat>>, l: Lit)
    requires OccsOk(db, occs) && forall i: nat :: i in Occ(occs, l) <==> Live(db, i) && l in db.clauses[i]
    ensures |Occ(occs, l)| == |LiveWith(db, l)|
  {
    var os := Occ(occs, l);
    assert Distinct(os);
    DistinctSize(os);
    assert ToSet(os) == LiveWith(db, l);
  }

  lemma OldOcc(db: Db, occs: map<Lit, seq<nat>>, l: Lit, i: nat)
    requires OccsOk(db, occs) && i in Occ(occs, l)
    ensures i < |db.clauses|
  {
    assert OccPair(db, occs, l, i);
  }

  /** The counted pairs come from earlier rounds. */
  ghost predicate Earlier(counted: set<(nat, nat)>, ps: seq<nat>, ns: seq<nat>, a: nat, b: nat) {
    forall c | c in counted :: exists x, y | 0 <= x < |ps| && 0 <= y < |ns| && (x < a || (x == a && y < b)) :: c == (ps[x], ns[y])
  }

  ghost predicate AllProper(db: Db, counted: set<(nat, nat)>, p: Lit) {
    forall c | c in counted :: c.0 < |db.clauses| && c.1 < |db.clauses| && Proper(db, c.0, c.1, p)
  }

  lemma CountStart(db: Db, ps: seq<nat>, ns: seq<nat>, p: Lit)
    ensures Earlier({}, ps, ns, 0, 0) && AllProper(db, {}, p)
  {
  }

  lemma EarlierNext(counted: set<(nat, nat)>, ps: seq<nat>, ns: seq<nat>, a: nat, b: nat)
    requires Earlier(counted, ps, ns, a, b)
    ensures Earlier(counted, ps, ns, a, b + 1)
  {
    forall c | c in counted
      ensures exists x, y | 0 <= x < |ps| && 0 <= y < |ns| && (x < a || (x == a && y < b + 1)) :: c == (ps[x], ns[y])
    {
      var x, y :| 0 <= x < |ps| && 0 <= y < |ns| && (x < a || (x == a && y < b)) && c == (ps[x], ns[y]);
    }
  }

  lemma EarlierRow(counted: set<(nat, nat)>, ps: seq<nat>, ns: seq<nat>, a: nat, b: nat)
    requires Earlier(counted, ps, ns, a, b)
    ensures Earlier(counted, ps, ns, a + 1, 0)
  {
    forall c | c in counted
      ensures exists x, y | 0 <= x < |ps| && 0 <= y < |ns| && (x < a + 1 || (x == a + 1 && y < 0)) :: c == (ps[x], ns[y])
    {
      var x, y :| 0 <= x < |ps| && 0 <= y < |ns| && (x < a || (x == a && y < b)) && c == (ps[x], ns[y]);
    }
  }

  /** One more pair, which was not counted before. */
  lemma CountOne(db0: Db, db: Db, counted: set<(nat, nat)>, ps: seq<nat>, ns: seq<nat>, a: nat, b: nat, p: Lit, clause: Clause)
    requires Earlier(counted, ps, ns, a, b) && AllProper(db0, counted, p) && a < |ps| && b < |ns| && Distinct(ps) && Distinct(ns)
    requires Later(db0, db) && WfDb(db) && ps[a] < |db0.clauses| && ns[b] < |db0.clauses|
    requires Proper(db, ps[a], ns[b], p) && ToSet(clause) == ResolventLits(db, ps[a], ns[b], p) && NewResolvent(db, ps[a], ns[b], p, clause)
    ensures var counted' := counted + {(ps[a], ns[b])};
            && |counted'| == |counted| + 1 && Earlier(counted', ps, ns, a, b + 1) && AllProper(db0, counted', p)
            && Proper(db0, ps[a], ns[b], p) && |clause| <= |ResolventLits(db0, ps[a], ns[b], p)|
  {
    var c := (ps[a], ns[b]);
    assert c !in counted;
    LaterProper(db0, db, ps[a], ns[b], p);
    NewResolventWf(db, ps[a], ns[b], p, clause);
    DistinctSize(clause);
    FewerLits(ResolventLits(db, ps[a], ns[b], p), ResolventLits(db0, ps[a], ns[b], p));
    hide Proper, ResolventLits;
    EarlierNext(counted, ps, ns, a, b);
    assert ps[a] == c.0 && ns[b] == c.1;
  }

  lemma FewerLits(a: set<Lit>, b: set<Lit>)
    requires a <= b
    ensures |a| <= |b|
  {
    assert b == a + (b - a);
  }

  lemma CountAll(db: Db, counted: set<(nat, nat)>, p: Lit)
    requires AllProper(db, counted, p)
    ensures |counted| <= |ProperPairs(db, p)|
  {
    hide Proper;
    var all := ProperPairs(db, p);
    forall c | c in counted ensures c in all {
      assert (c.0, c.1) in all;
    }
    assert all == counted + (all - counted);
  }

  lemma LongOne(db: Db, i: nat, k: nat, p: Lit, size: nat, sizeLimit: nat)
    requires i < |db.clauses| && k < |db.clauses| && Proper(db, i, k, p) && size <= |ResolventLits(db, i, k, p)|
    ensures size > sizeLimit ==> TooLong(db, p, sizeLimit)
  {
  }

  /** Every pair so far is counted or done. */
  ghost predicate Bounded(db: Db, ps: seq<nat>, ns: seq<nat>, a: nat, b: nat, p: Lit, counted: set<(nat, nat)>) {
    && |db.garbage| == |db.clauses| && Lists(db, p, ps) && Lists(db, Neg(p), ns)
    && forall x, y | 0 <= x < |ps| && 0 <= y < |ns| && (x < a || (x == a && y < b)) ::
         (ps[x], ns[y]) in counted || PairDone(db, ps[x], ns[y], p)
  }

  lemma BoundedStart(db: Db, ps: seq<nat>, ns: seq<nat>, p: Lit)
    requires WfDb(db) && Lists(db, p, ps) && Lists(db, Neg(p), ns)
    ensures Bounded(db, ps, ns, 0, 0, p, {})
  {
  }

  lemma BoundedIn(db: Db, ps: seq<nat>, ns: seq<nat>, a: nat, b: nat, p: Lit, counted: set<(nat, nat)>, x: nat)
    requires Bounded(db, ps, ns, a, b, p, counted) && x < |ps|
    ensures ps[x] < |db.clauses| && p in db.clauses[ps[x]]
  {
    ListsIn(db, p, ps, x);
  }

  lemma BoundedInNeg(db: Db, ps: seq<nat>, ns: seq<nat>, a: nat, b: nat, p: Lit, counted: set<(nat, nat)>, y: nat)
    requires Bounded(db, ps, ns, a, b, p, counted) && y < |ns|
    ensures ns[y] < |db.clauses| && Neg(p) in db.clauses[ns[y]]
  {
    ListsIn(db, Neg(p), ns, y);
  }

  lemma BoundedSkip(db: Db, ps: seq<nat>, ns: seq<nat>, a: nat, p: Lit, counted: set<(nat, nat)>)
    requires Bounded(db, ps, ns, a, 0, p, counted) && a < |ps| && ps[a] < |db.garbage| && db.garbage[ps[a]]
    ensures Bounded(db, ps, ns, a + 1, 0, p, counted)
  {
    hide Rest, Resolved, Lists;
  }

  lemma BoundedCount(db: Db, ps: seq<nat>, ns: seq<nat>, a: nat, b: nat, p: Lit, counted: set<(nat, nat)>)
    requires Bounded(db, ps, ns, a, b, p, counted) && a < |ps| && b < |ns|
    ensures Bounded(db, ps, ns, a, b + 1, p, counted + {(ps[a], ns[b])})
    ensures |counted + {(ps[a], ns[b])}| <= |counted| + 1
  {
    hide PairDone, Lists;
  }

  lemma BoundedStep(db: Db, db': Db, ps: seq<nat>, ns: seq<nat>, a: nat, b: nat, p: Lit, counted: set<(nat, nat)>)
    requires Bounded(db, ps, ns, a, b, p, counted) && a < |ps| && b < |ns|
    requires Onward(db, db', p.v) && PairDone(db', ps[a], ns[b], p)
    ensures Bounded(db', ps, ns, a, b + 1, p, counted)
  {
    hide PairDone;
    OnwardLists(db, db', p, ps);
    OnwardLists(db, db', Neg(p), ns);
    OnwardSizes(db, db', p.v);
    hide Onward, Lists;
    forall x, y | 0 <= x < |ps| && 0 <= y < |ns| && (x < a || (x == a && y < b + 1))
      ensures (ps[x], ns[y]) in counted || PairDone(db', ps[x], ns[y], p)
    {
      if (x < a || y < b) && (ps[x], ns[y]) !in counted {
        ListsIn(db, p, ps, x);
        ListsIn(db, Neg(p), ns, y);
        OnwardPair(db, db', ps[x], ns[y], p);
      }
    }
  }

  lemma OnwardSizes(db: Db, db': Db, v: nat)
    requires Onward(db, db', v)
    ensures |db'.garbage| == |db'.clauses|
  {
    hide Rest, Mentions;
  }

  lemma OnwardLists(db: Db, db': Db, l: Lit, ps: seq<nat>)
    requires Onward(db, db', l.v) && Lists(db, l, ps)
    ensures Lists(db', l, ps)
  {
    hide Rest;
    forall i: nat | Live(db', i) && l in db'.clauses[i] ensures i in ps {
      assert Mentions(db'.clauses[i], l.v);
      assert Live(db, i);
    }
  }

  lemma BoundedRow(db: Db, ps: seq<nat>, ns: seq<nat>, a: nat, p: Lit, counted: set<(nat, nat)>)
    requires Bounded(db, ps, ns, a, |ns|, p, counted)
    ensures Bounded(db, ps, ns, a + 1, 0, p, counted)
  {
    hide PairDone, Lists;
  }

  lemma BoundedEnd(db: Db, ps: seq<nat>, ns: seq<nat>, p: Lit, counted: set<(nat, nat)>)
    requires Bounded(db, ps, ns, |ps|, 0, p, counted)
    ensures Handled(db, p, counted)
  {
    hide PairDone;
    forall i: nat, k: nat | Live(db, i) && Live(db, k) && p in db.clauses[i] && Neg(p) in db.clauses[k]
      ensures (i, k) in counted || PairDone(db, i, k, p)
    {
      assert i in ps && k in ns;
      var x :| 0 <= x < |ps| && ps[x] == i;
      var y :| 0 <= y < |ns| && ns[y] == k;
      assert (ps[x], ns[y]) in counted || PairDone(db, ps[x], ns[y], p);
    }
  }

  lemma BoundedEmpty(db: Db, ps: seq<nat>, ns: seq<nat>, p: Lit)
    requires Lists(db, p, ps) && Lists(db, Neg(p), ns) && (ps == [] || ns == [])
    ensures Handled(db, p, {})
  {
    hide PairDone;
    assert forall i: nat, k: nat | Live(db, i) && Live(db, k) && p in db.clauses[i] && Neg(p) in db.clauses[k] :: i in ps && k in ns;
  }

  lemma PairsStart(db: Db, ps: seq<nat>, ns: seq<nat>, p: Lit)
    ensures PairsDone(db, ps, ns, 0, 0, p)
  {
  }

  lemma PairsSkip(db: Db, ps: seq<nat>, ns: seq<nat>, a: nat, p: Lit)
    requires PairsDone(db, ps, ns, a, 0, p) && a < |ps| && ps[a] < |db.garbage| && db.garbage[ps[a]]
    ensures PairsDone(db, ps, ns, a + 1, 0, p)
  {
    hide Rest, Resolved;
  }

  lemma PairsRow(db: Db, ps: seq<nat>, ns: seq<nat>, a: nat, p: Lit)
    requires PairsDone(db, ps, ns, a, |ns|, p)
    ensures PairsDone(db, ps, ns, a + 1, 0, p)
  {
    hide PairDone;
  }

  lemma PairsEnd(db: Db, ps: seq<nat>, ns: seq<nat>, p: Lit)
    requires PairsDone(db, ps, ns, |ps|, 0, p) && Lists(db, p, ps) && Lists(db, Neg(p), ns)
    ensures forall i: nat | Live(db, i) && p in db.clauses[i] :: AllDone(db, i, p)
  {
    hide PairDone;
    forall i: nat | Live(db, i) && p in db.clauses[i] ensures AllDone(db, i, p) {
      forall k: nat | Live(db, k) && Neg(p) in db.clauses[k] ensures PairDone(db, i, k, p) {
        assert i in ps && k in ns;
        var x :| 0 <= x < |ps| && ps[x] == i;
        var y :| 0 <= y < |ns| && ns[y] == k;
        assert PairDone(db, ps[x], ns[y], p);
      }
    }
  }

  lemma SwapPair(db: Db, i: nat, k: nat, p: Lit)
    requires Pair(db, i, k, p)
    ensures Pair(db, k, i, Neg(p)) && Neg(Neg(p)) == p
  {
  }

  lemma MergedIs(db: Db, i: nat, k: nat, p: Lit, lits: Clause, merged: Clause)
    requires Pair(db, i, k, p) && lits == Residue(db.clauses[i], p, db.units)
    requires merged == lits + Extra(lits, Residue(db.clauses[k], Neg(p), db.units))
    ensures merged == Merged(db.clauses[i], p, db.clauses[k], db.units)
  {
  }

  lemma UnitFresh(db: Db, i: nat, k: nat, p: Lit, u: Lit)
    requires Pair(db, i, k, p) && u in Merged(db.clauses[i], p, db.clauses[k], db.units)
    requires !SatisfiedBut(db.clauses[i], p, db.units) && !SatisfiedBut(db.clauses[k], Neg(p), db.units)
    ensures u !in db.units && Neg(u) !in db.units
  {
    assert u in Residue(db.clauses[i], p, db.units) || u in Residue(db.clauses[k], Neg(p), db.units);
  }

  /** What the two size tests find out. */
  lemma SizeTests(db: Db, i: nat, k: nat, p: Lit)
    requires Pair(db, i, k, p)
    ensures var a := Residue(db.clauses[i], p, db.units); var b := Residue(db.clauses[k], Neg(p), db.units);
            var size := |Merged(db.clauses[i], p, db.clauses[k], db.units)|;
            (|a| + 1 > size ==> Subset(b, a)) && (|b| + 1 > size ==> Subset(a, b))
  {
    var a := Residue(db.clauses[i], p, db.units);
    var b := Residue(db.clauses[k], Neg(p), db.units);
    ResidueWf(db.clauses[i], p, db.units);
    ResidueWf(db.clauses[k], Neg(p), db.units);
    hide Residue, Subset;
    if Extra(a, b) == [] {
      ExtraNone(a, b);
    }
    if |b| >= |a| + |Extra(a, b)| {
      ExtraSize(a, b);
    }
  }

  lemma ResolventProper(db: Db, i: nat, k: nat, p: Lit, r: Clause)
    requires Pair(db, i, k, p) && r == Merged(db.clauses[i], p, db.clauses[k], db.units) && WfClause(r)
    requires !SatisfiedBut(db.clauses[i], p, db.units) && !SatisfiedBut(db.clauses[k], Neg(p), db.units)
    ensures ToSet(r) == ResolventLits(db, i, k, p) && Proper(db, i, k, p)
  {
    MergedLits(db, i, k, p, r);
  }

  lemma GrownLater(db: Db, db': Db, v: nat)
    requires Grown(db, db', v)
    ensures Later(db, db')
  {
    hide Mentions;
  }

  lemma SettledLater(db: Db, db': Db)
    requires Settled(db, db')
    ensures Later(db, db')
  {
    hide HasUnit;
  }

  lemma NewResolventWf(db: Db, i: nat, k: nat, p: Lit, r: Clause)
    requires NewResolvent(db, i, k, p, r)
    ensures WfClause(r)
  {
  }

  lemma ResolventNew(db: Db, i: nat, k: nat, p: Lit)
    requires Pair(db, i, k, p) && |Merged(db.clauses[i], p, db.clauses[k], db.units)| >= 2
    requires !Clash(Residue(db.clauses[i], p, db.units), Residue(db.clauses[k], Neg(p), db.units))
    ensures NewResolvent(db, i, k, p, Merged(db.clauses[i], p, db.clauses[k], db.units))
  {
    var c, d := db.clauses[i], db.clauses[k];
    var r := Merged(c, p, d, db.units);
    ResidueWf(c, p, db.units);
    ResidueWf(d, Neg(p), db.units);
    MergeWf(Residue(c, p, db.units), Residue(d, Neg(p), db.units));
    hide Residue, Extra, Clash, Resolved;
    assert !Mentions(r, p.v) by {
      if Lit(p.v, true) in r {
        UnitFacts(c, p, d, db.units, Lit(p.v, true));
      }
      if Lit(p.v, false) in r {
        UnitFacts(c, p, d, db.units, Lit(p.v, false));
      }
    }
    hide Merged;
    forall m: Assignment | AllTrue(m, db.units) ensures SatClause(m, r) <==> Resolved(m, c, p, d) {
      MergedMeaning(m, c, p, d, db.units);
    }
  }

  /** The clause enters the list of each of its literals. */
  method PushOccs(occs0: map<Lit, seq<nat>>, c: Clause, id: nat) returns (occs: map<Lit, seq<nat>>)
    requires WfClause(c)
    ensures forall l: Lit :: Occ(occs, l) == if l in c then Occ(occs0, l) + [id] else Occ(occs0, l)
  {
    hide Occ, WfClause;
    occs := occs0;
    for k := 0 to |c|
      invariant forall l: Lit :: Occ(occs, l) == if l in c[..k] then Occ(occs0, l) + [id] else Occ(occs0, l)
    {
      OccPush(occs0, occs, c, k, id);
      occs := occs[c[k] := Occ(occs, c[k]) + [id]];
    }
    assert c[..|c|] == c;
  }

  lemma OccPush(occs0: map<Lit, seq<nat>>, occs: map<Lit, seq<nat>>, c: Clause, k: nat, id: nat)
    requires WfClause(c) && k < |c|
    requires forall l: Lit :: Occ(occs, l) == if l in c[..k] then Occ(occs0, l) + [id] else Occ(occs0, l)
    ensures var occs' := occs[c[k] := Occ(occs, c[k]) + [id]];
            forall l: Lit :: Occ(occs', l) == if l in c[..k + 1] then Occ(occs0, l) + [id] else Occ(occs0, l)
  {
    assert c[..k + 1] == c[..k] + [c[k]];
    OnceBefore(c, k);
  }
}
