/**
 Globally blocked clauses: the current assignment is split into a conditional
 part and an autarky, and refined for a candidate clause until flipping the
 autarky is known to repair that clause.
 */
module Condition {
  import opened Cnf
  import opened Extension
  import opened Elim

  predicate Touched(c: Clause, aut: set<Lit>) {
    exists a | a in aut :: Neg(a) in c
  }

  /** The fix-point: the autarky is conditional on literals that the candidate falsifies. */
  ghost predicate GloballyBlocked(db: Db, i: nat, aut: set<Lit>, cond: set<Lit>) {
    && Live(db, i) && HasTrue(db.clauses[i], aut)
    && (forall l | l in cond :: Neg(l) in db.clauses[i])
    && (forall l | l in aut + cond :: Neg(l) !in aut + cond)
    && (forall l | l in aut :: l !in db.units && Neg(l) !in db.units)
    && (forall j: nat | Live(db, j) && Touched(db.clauses[j], aut) :: HasTrue(db.clauses[j], aut + cond))
  }

  /** Flipping the witness keeps every clause. */
  lemma FlipClause(m: Assignment, db: Db, i: nat, wit: seq<Lit>, cond: set<Lit>, j: nat)
    requires GloballyBlocked(db, i, ToSet(wit), cond) && Consistent(wit)
    requires Models(m, MarkGarbage(db, i)) && !SatClause(m, db.clauses[i]) && Live(db, j)
    ensures SatClause(PutAll(m, wit), db.clauses[j])
  {
    var aut := ToSet(wit);
    var r := PutAll(m, wit);
    var d := db.clauses[j];
    PutAllTrue(m, wit);
    if HasTrue(d, aut) {
      var l :| l in d && l in aut;
      assert True(r, l);
    } else {
      assert j != i && Live(MarkGarbage(db, i), j);
      if Touched(d, aut) {
        var l :| l in d && l in aut + cond;
        assert l in cond && Neg(l) in db.clauses[i];
        assert True(m, l);
        assert l !in wit && Neg(l) !in aut + cond;
        assert True(r, l);
      } else {
        var l :| l in d && True(m, l);
        assert l !in wit;
        assert Neg(l) !in wit by {
          assert Neg(Neg(l)) == l;
          assert Neg(l) in wit ==> Neg(l) in aut;
        }
        assert True(r, l);
      }
    }
  }

  lemma FlipUnits(m: Assignment, units: set<Lit>, wit: seq<Lit>)
    requires AllTrue(m, units) && Consistent(wit) && forall l | l in wit :: l !in units && Neg(l) !in units
    ensures AllTrue(PutAll(m, wit), units)
  {
    PutAllTrue(m, wit);
    forall l | l in units ensures True(PutAll(m, wit), l) {
      assert l !in wit;
      assert Neg(Neg(l)) == l;
      assert Neg(l) !in wit;
    }
  }

  /** A globally blocked clause is redundant with the autarky as witness. */
  lemma BlockedRedundant(db: Db, i: nat, wit: seq<Lit>, cond: set<Lit>)
    requires GloballyBlocked(db, i, ToSet(wit), cond) && Consistent(wit)
    ensures Redundant(Formula(MarkGarbage(db, i)), Entry(wit, db.clauses[i]))
  {
    var db' := MarkGarbage(db, i);
    var c := db.clauses[i];
    var f := Formula(db');
    assert forall l | l in wit :: l in ToSet(wit);
    hide Formula, AllTrue, SatClause, HasTrue, Touched;
    forall m: Assignment | Sat(m, f) && !SatClause(m, c) ensures Sat(PutAll(m, wit), f + {c}) {
      var r := PutAll(m, wit);
      FormulaModels(m, db');
      FormulaModels(r, db');
      FlipUnits(m, db.units, wit);
      forall j: nat | Live(db, j) ensures SatClause(r, db.clauses[j]) {
        FlipClause(m, db, i, wit, cond, j);
      }
      assert Models(r, db') by {
        assert forall j: nat | Live(db', j) :: Live(db, j);
      }
    }
  }

  lemma BlockedStep(orig: set<Clause>, db: Db, es: seq<Entry>, i: nat, wit: seq<Lit>, cond: set<Lit>)
    requires Simplified(orig, Formula(db), es) && Live(db, i)
    requires GloballyBlocked(db, i, ToSet(wit), cond) && Consistent(wit)
    ensures Simplified(orig, Formula(MarkGarbage(db, i)), es + [Entry(wit, db.clauses[i])])
  {
    hide Formula, Simplified, GloballyBlocked, Redundant;
    BlockedRedundant(db, i, wit, cond);
    GarbageFormula(db, i);
    WeakenStep(orig, Formula(db), Formula(MarkGarbage(db, i)), es, Entry(wit, db.clauses[i]));
  }

  // ----- the watches -----

  type Watches = map<Lit, seq<nat>>

  /** Some literal of the clause in s watches it. */
  ghost predicate WatchedBy(c: Clause, i: nat, watches: Watches, s: set<Lit>) {
    exists w | w in c && w in s :: i in Occ(watches, w)
  }

  /** Clauses with true and false literals are watched by a true one. */
  ghost predicate Base(db: Db, watches: Watches, all: set<Lit>) {
    forall i: nat | Live(db, i) && Touched(db.clauses[i], all) && HasTrue(db.clauses[i], all) ::
      WatchedBy(db.clauses[i], i, watches, all)
  }

  /** The literals that a clause without true literals falsifies are conditional. */
  ghost predicate Start(db: Db, all: set<Lit>, init: set<Lit>) {
    forall i: nat, a: Lit | Live(db, i) && a in all && Neg(a) in db.clauses[i] && !HasTrue(db.clauses[i], all) :: a in init
  }

  /** Clauses that the autarky touches are watched by a true literal or still to be visited. */
  ghost predicate Refined(db: Db, watches: Watches, vals: set<Lit>, cond: set<Lit>, todo: seq<nat>) {
    forall i: nat | Live(db, i) && Touched(db.clauses[i], vals - cond) && i !in todo ::
      WatchedBy(db.clauses[i], i, watches, vals)
  }

  lemma RefinedStart(db: Db, watches: Watches, all: set<Lit>, init: set<Lit>)
    requires Base(db, watches, all) && Start(db, all, init)
    ensures Refined(db, watches, all, init, [])
  {
    hide WatchedBy;
    forall i: nat | Live(db, i) && Touched(db.clauses[i], all - init) ensures WatchedBy(db.clauses[i], i, watches, all) {
      var a :| a in all - init && Neg(a) in db.clauses[i];
    }
  }

  lemma RefinedUnassign(db: Db, watches: Watches, vals: set<Lit>, cond: set<Lit>, u: Lit)
    requires Refined(db, watches, vals, cond, []) && u in cond
    ensures Refined(db, watches, vals - {u}, cond, Occ(watches, u))
  {
    assert vals - {u} - cond == vals - cond;
    var todo := Occ(watches, u);
    forall i: nat | Live(db, i) && Touched(db.clauses[i], vals - {u} - cond) && i !in todo
      ensures WatchedBy(db.clauses[i], i, watches, vals - {u})
    {
      var w :| w in db.clauses[i] && w in vals && i in Occ(watches, w);
      assert w != u;
    }
  }

  /** The watch of d moves from u to r. */
  function Moved(watches: Watches, u: Lit, r: Lit, keep: seq<nat>, rest: seq<nat>, d: nat): (w: Watches) {
    watches[u := keep + rest][r := Occ(watches, r) + [d]]
  }

  lemma MovedWatched(watches: Watches, u: Lit, r: Lit, keep: seq<nat>, rest: seq<nat>, d: nat, c: Clause, i: nat, s: set<Lit>)
    requires r != u && Occ(watches, u) == keep + [d] + rest && WatchedBy(c, i, watches, s)
    requires i == d ==> r in c && r in s
    ensures WatchedBy(c, i, Moved(watches, u, r, keep, rest, d), s)
  {
    var w' := Moved(watches, u, r, keep, rest, d);
    var w :| w in c && w in s && i in Occ(watches, w);
    if i == d {
      assert d in Occ(w', r);
    } else {
      assert i in Occ(w', w);
    }
  }

  lemma MoveWatch(db: Db, watches: Watches, all: set<Lit>, vals: set<Lit>, cond: set<Lit>, u: Lit, r: Lit, keep: seq<nat>, rest: seq<nat>, d: nat)
    requires Base(db, watches, all) && Refined(db, watches, vals, cond, [d] + rest) && vals <= all
    requires r != u && Occ(watches, u) == keep + [d] + rest && d < |db.clauses| && r in db.clauses[d] && r in vals
    ensures Base(db, Moved(watches, u, r, keep, rest, d), all)
    ensures Refined(db, Moved(watches, u, r, keep, rest, d), vals, cond, rest)
  {
    hide WatchedBy, Touched, HasTrue;
    var w' := Moved(watches, u, r, keep, rest, d);
    forall i: nat | Live(db, i) && Touched(db.clauses[i], all) && HasTrue(db.clauses[i], all)
      ensures WatchedBy(db.clauses[i], i, w', all)
    {
      MovedWatched(watches, u, r, keep, rest, d, db.clauses[i], i, all);
    }
    forall i: nat | Live(db, i) && Touched(db.clauses[i], vals - cond) && i !in rest
      ensures WatchedBy(db.clauses[i], i, w', vals)
    {
      if i == d {
        NowWatched(db.clauses[d], d, w', r, vals);
      } else {
        MovedWatched(watches, u, r, keep, rest, d, db.clauses[i], i, vals);
      }
    }
  }

  lemma NowWatched(c: Clause, i: nat, watches: Watches, r: Lit, s: set<Lit>)
    requires r in c && r in s && r in watches && i in watches[r]
    ensures WatchedBy(c, i, watches, s)
  {
    assert i in Occ(watches, r);
  }

  /** The clause d keeps its watch: the autarky does not touch it any more. */
  lemma KeepWatch(db: Db, watches: Watches, vals: set<Lit>, cond: set<Lit>, rest: seq<nat>, d: nat)
    requires Refined(db, watches, vals, cond, [d] + rest) && d < |db.clauses| && !Touched(db.clauses[d], vals - cond)
    ensures Refined(db, watches, vals, cond, rest)
  {
    hide WatchedBy, Touched;
    assert forall i | i in [d] + rest :: i == d || i in rest;
  }

  /** More conditional literals touch fewer clauses. */
  lemma MoreConditional(db: Db, watches: Watches, vals: set<Lit>, cond: set<Lit>, cond': set<Lit>, todo: seq<nat>)
    requires Refined(db, watches, vals, cond, todo) && cond <= cond'
    ensures Refined(db, watches, vals, cond', todo)
  {
    hide WatchedBy;
  }

  // ----- everything that blocks -----

  /** Some literals of the assignment block the clause globally. */
  ghost predicate CanBlock(db: Db, i: nat, all: set<Lit>) {
    exists aut: set<Lit>, con: set<Lit> :: aut + con <= all && GloballyBlocked(db, i, aut, con)
  }

  /** The two parts hold every autarky and every conditional part that block the clause. */
  ghost predicate Admits(db: Db, i: nat, all: set<Lit>, vals: set<Lit>, cond: set<Lit>) {
    forall aut: set<Lit>, con: set<Lit> | aut + con <= all && GloballyBlocked(db, i, aut, con) ::
      aut + con <= vals && aut !! cond
  }

  /** A live clause without true literals makes the literal conditional. */
  ghost predicate Sourced(db: Db, n: nat, all: set<Lit>, a: Lit) {
    exists j: nat :: j < n && Live(db, j) && Neg(a) in db.clauses[j] && !HasTrue(db.clauses[j], all)
  }

  ghost predicate SourcedAll(db: Db, n: nat, all: set<Lit>, cond: set<Lit>) {
    forall a | a in cond :: Sourced(db, n, all, a)
  }

  /** No autarky falsifies literals of a clause without true literals. */
  lemma NotTouched(db: Db, i: nat, aut: set<Lit>, con: set<Lit>, vals: set<Lit>, d: nat, a: Lit)
    requires GloballyBlocked(db, i, aut, con) && aut + con <= vals
    requires Live(db, d) && Neg(a) in db.clauses[d] && !HasTrue(db.clauses[d], vals)
    ensures a !in aut
  {
    var c := db.clauses[d];
    assert HasTrue(c, aut + con) ==> HasTrue(c, vals);
    assert a in aut ==> Touched(c, aut);
  }

  lemma AdmitsStart(db: Db, i: nat, n: nat, all: set<Lit>, cond: set<Lit>)
    requires SourcedAll(db, n, all, cond)
    ensures Admits(db, i, all, all, cond)
  {
    hide GloballyBlocked, HasTrue;
    forall aut: set<Lit>, con: set<Lit> | aut + con <= all && GloballyBlocked(db, i, aut, con) ensures aut !! cond {
      forall a | a in cond ensures a !in aut {
        assert Sourced(db, n, all, a);
        var j: nat :| j < n && Live(db, j) && Neg(a) in db.clauses[j] && !HasTrue(db.clauses[j], all);
        NotTouched(db, i, aut, con, all, j, a);
      }
    }
  }

  lemma AdmitsTurn(db: Db, i: nat, all: set<Lit>, vals: set<Lit>, cond: set<Lit>, cond': set<Lit>, d: nat)
    requires Admits(db, i, all, vals, cond) && Live(db, d) && !HasTrue(db.clauses[d], vals)
    requires forall a | a in cond' :: a in cond || Neg(a) in db.clauses[d]
    ensures Admits(db, i, all, vals, cond')
  {
    hide GloballyBlocked, HasTrue;
    forall aut: set<Lit>, con: set<Lit> | aut + con <= all && GloballyBlocked(db, i, aut, con) ensures aut !! cond' {
      forall a | a in cond' ensures a !in aut {
        if a !in cond {
          NotTouched(db, i, aut, con, vals, d, a);
        }
      }
    }
  }

  lemma AdmitsUnassign(db: Db, i: nat, all: set<Lit>, vals: set<Lit>, cond: set<Lit>, u: Lit)
    requires Admits(db, i, all, vals, cond) && u in cond && i < |db.clauses| && Neg(u) !in db.clauses[i]
    ensures Admits(db, i, all, vals - {u}, cond)
  {
    forall aut: set<Lit>, con: set<Lit> | aut + con <= all && GloballyBlocked(db, i, aut, con) ensures aut + con <= vals - {u} {
      assert u !in con;
    }
  }

  /** Without an autarky literal in the clause nothing blocks it. */
  lemma AdmitsNone(db: Db, i: nat, all: set<Lit>, vals: set<Lit>, cond: set<Lit>)
    requires Admits(db, i, all, vals, cond) && Live(db, i) && !HasTrue(db.clauses[i], vals - cond)
    ensures !CanBlock(db, i, all)
  {
    forall aut: set<Lit>, con: set<Lit> | aut + con <= all ensures !GloballyBlocked(db, i, aut, con) {
      assert aut + con <= vals && aut !! cond ==> forall l | l in aut :: l in vals - cond;
    }
  }

  /** The formula lost clauses only. */
  ghost predicate Shrunk(db: Db, db': Db) {
    db'.clauses == db.clauses && db'.units == db.units && forall i: nat | Live(db', i) :: Live(db, i)
  }

  /** What was globally blocked stays so when other clauses go. */
  lemma StillBlocked(db: Db, db': Db, i: nat, aut: set<Lit>, con: set<Lit>)
    requires Shrunk(db, db') && GloballyBlocked(db, i, aut, con) && Live(db', i)
    ensures GloballyBlocked(db', i, aut, con)
  {
    hide HasTrue, Touched;
  }

  /** Four clauses, of which the first goes. */
  const FourClauses: Db := Db([
      [Lit(1, true), Lit(2, false), Lit(3, false)], [Lit(2, true), Lit(4, true)],
      [Lit(1, false), Lit(3, true)], [Lit(3, false), Lit(5, true)]], [false, false, false, false], {}, false)

  /**
   After a clause went, another one may become globally blocked: the round does not see this, as
   the clause that went keeps its watch.
   */
  lemma BlockedLater()
    ensures var all := {Lit(1, true), Lit(2, true), Lit(3, true)};
            var now := MarkGarbage(FourClauses, 0);
            CanBlock(FourClauses, 0, all) && !CanBlock(FourClauses, 1, all) && CanBlock(now, 1, all)
  {
    var p, b, q := Lit(1, true), Lit(2, true), Lit(3, true);
    var all := {p, b, q};
    FirstBlocked();
    SecondBlocked();
    forall aut: set<Lit>, con: set<Lit> | aut + con <= all ensures !GloballyBlocked(FourClauses, 1, aut, con) {
      SecondNotBlocked(aut, con);
    }
  }

  lemma FirstBlocked()
    ensures GloballyBlocked(FourClauses, 0, {Lit(1, true)}, {Lit(3, true)})
  {
    var cs := FourClauses.clauses;
    assert Lit(1, true) in cs[0] && Neg(Lit(3, true)) in cs[0] && Lit(3, true) in cs[2];
  }

  lemma SecondBlocked()
    ensures GloballyBlocked(MarkGarbage(FourClauses, 0), 1, {Lit(2, true)}, {})
  {
    assert Lit(2, true) in FourClauses.clauses[1];
  }

  lemma SecondNotBlocked(aut: set<Lit>, con: set<Lit>)
    requires aut + con <= {Lit(1, true), Lit(2, true), Lit(3, true)}
    ensures !GloballyBlocked(FourClauses, 1, aut, con)
  {
    var p, b, q := Lit(1, true), Lit(2, true), Lit(3, true);
    var db := FourClauses;
    var g := GloballyBlocked(db, 1, aut, con);
    assert g ==> b in aut && con == {} by {
      assert g ==> forall l | l in con :: Neg(l) in db.clauses[1];
    }
    assert Neg(b) in db.clauses[0] && Neg(p) in db.clauses[2] && Neg(q) in db.clauses[3];
    TouchedNeeds(db, 1, aut, con, 0, b);
    TouchedNeeds(db, 1, aut, con, 2, p);
    TouchedNeeds(db, 1, aut, con, 3, q);
    hide GloballyBlocked;
    assert g ==> p in aut;
    assert g ==> q in aut;
  }

  lemma TouchedNeeds(db: Db, i: nat, aut: set<Lit>, con: set<Lit>, j: nat, a: Lit)
    requires Live(db, j) && Neg(a) in db.clauses[j]
    ensures GloballyBlocked(db, i, aut, con) && a in aut ==> HasTrue(db.clauses[j], aut + con)
  {
    assert a in aut ==> Touched(db.clauses[j], aut);
  }

  // ----- the refinement -----

  /** Only live clauses below n are watched. */
  ghost predicate WatchIds(db: Db, n: nat, watches: Watches) {
    forall l: Lit, i: nat {:trigger i in Occ(watches, l)} | i in Occ(watches, l) :: i < n && Live(db, i)
  }

  lemma WatchIdsMoved(db: Db, n: nat, watches: Watches, u: Lit, r: Lit, keep: seq<nat>, rest: seq<nat>, d: nat)
    requires WatchIds(db, n, watches) && r != u && Occ(watches, u) == keep + [d] + rest
    ensures WatchIds(db, n, Moved(watches, u, r, keep, rest, d))
    ensures Occ(Moved(watches, u, r, keep, rest, d), u) == keep + rest
  {
    assert d in Occ(watches, u);
    var w' := Moved(watches, u, r, keep, rest, d);
    forall l: Lit, i: nat | i in Occ(w', l) ensures i < n && Live(db, i) {
      if l == u {
        assert i in Occ(watches, u);
      } else if i != d {
        assert i in Occ(watches, l);
      }
    }
  }

  lemma WatchIdAt(db: Db, n: nat, watches: Watches, u: Lit, keep: seq<nat>, rest: seq<nat>, d: nat)
    requires WatchIds(db, n, watches) && Occ(watches, u) == keep + [d] + rest
    ensures Live(db, d)
  {
    assert d in Occ(watches, u);
  }

  /** The last true literal of a watched clause, and whether the autarky touches it. */
  method ScanWatched(d: Clause, vals: set<Lit>, cond: set<Lit>) returns (replacement: Option<Lit>, negative: nat)
    ensures replacement.Some? ==> replacement.value in d && replacement.value in vals
    ensures replacement.None? ==> !HasTrue(d, vals)
    ensures negative == 0 <==> !Touched(d, vals - cond)
  {
    replacement, negative := None, 0;
    for k := 0 to |d|
      invariant replacement.Some? ==> replacement.value in d && replacement.value in vals
      invariant replacement.None? ==> forall x | 0 <= x < k :: d[x] !in vals
      invariant negative == 0 <==> forall x | 0 <= x < k :: Neg(d[x]) !in vals - cond
    {
      if d[k] in vals {
        replacement := Some(d[k]);
      }
      if Neg(d[k]) in vals && Neg(d[k]) !in cond {
        negative := negative + 1;
      }
    }
    TouchedAt(d, vals - cond);
  }

  lemma TouchedAt(d: Clause, aut: set<Lit>)
    ensures Touched(d, aut) <==> exists x | 0 <= x < |d| :: Neg(d[x]) in aut
  {
    if Touched(d, aut) {
      var a :| a in aut && Neg(a) in d;
      var x :| 0 <= x < |d| && d[x] == Neg(a);
      assert Neg(d[x]) == a;
    }
    if x :| 0 <= x < |d| && Neg(d[x]) in aut {
      assert Neg(Neg(d[x])) in d;
    }
  }

  lemma DistinctWithin(a: seq<Lit>, b: seq<Lit>)
    requires Distinct(a) && Distinct(b) && ToSet(a) <= ToSet(b)
    ensures |a| <= |b|
  {
    DistinctSize(a);
    DistinctSize(b);
    assert ToSet(b) == ToSet(a) + (ToSet(b) - ToSet(a));
  }

  class Conditioner {
    const trail: seq<Lit>
    const limit: nat
    var vals: set<Lit>
    var cond: set<Lit>
    var watches: Watches
    var conditional: seq<Lit>
    var unassigned: seq<Lit>
    var props: nat
    /** The formula whose clauses are watched. */
    ghost var first: Db

    ghost predicate Sorted()
      reads this
    {
      && Distinct(trail) && Consistent(trail)
      && vals == ToSet(trail) - ToSet(unassigned) && ToSet(unassigned) <= ToSet(trail)
      && cond == ToSet(conditional) && cond <= ToSet(trail) && Distinct(conditional)
    }

    ghost predicate Valid()
      reads this
    {
      Sorted() && WatchIds(first, |first.clauses|, watches) && Base(first, watches, ToSet(trail))
    }

    /** Between two candidates. */
    ghost predicate AtRest()
      reads this
    {
      && Valid() && unassigned == [] && TrailFree(trail, first.units)
      && Start(first, ToSet(trail), cond) && SourcedAll(first, |first.clauses|, ToSet(trail), cond)
    }

    /** The assignment still holds everything that blocks clause i. */
    ghost predicate Room(i: nat)
      reads this
    {
      Live(first, i) && Admits(first, i, ToSet(trail), vals, cond)
    }

    /** The watched autarky literal of the candidate clause, or none if there is none. */
    ghost predicate Witnessed(c: Clause, w: Option<Lit>)
      reads this
    {
      match w
      case Some(l) => l in c && l in vals - cond
      case None => !HasTrue(c, vals - cond)
    }

    method FindAutarky(c: Clause) returns (w: Option<Lit>)
      ensures Witnessed(c, w)
    {
      w := None;
      for k := 0 to |c|
        invariant w.Some? ==> Witnessed(c, w)
        invariant w.None? ==> forall x | 0 <= x < k :: c[x] !in vals - cond
      {
        if w.None? && c[k] in vals && c[k] !in cond {
          w := Some(c[k]);
        }
      }
    }

    /** The autarky literals that a clause without true literals falsifies become conditional. */
    method TurnConditional(d: Clause, c: Clause, w: Lit) returns (watched: Option<Lit>)
      requires Sorted() && Witnessed(c, Some(w))
      modifies this`cond, this`conditional
      ensures Sorted() && old(cond) <= cond && old(conditional) <= conditional
      ensures Witnessed(c, watched) && (watched.Some? ==> !Touched(d, vals - cond))
      ensures forall a | a in cond :: a in old(cond) || Neg(a) in d
    {
      hide Consistent, HasTrue;
      watched := Some(w);
      var k := 0;
      while k < |d| && watched.Some?
        invariant 0 <= k <= |d| && Sorted() && old(cond) <= cond && old(conditional) <= conditional
        invariant Witnessed(c, watched)
        invariant watched.Some? ==> forall x | 0 <= x < k :: Neg(d[x]) !in vals - cond
        invariant forall a | a in cond :: a in old(cond) || Neg(a) in d
      {
        var a := Neg(d[k]);
        assert Neg(a) == d[k];
        if a in vals && a !in cond {
          assert a !in conditional;
          cond := cond + {a};
          conditional := conditional + [a];
          if a == watched.value {
            watched := FindAutarky(c);
          }
        }
        k := k + 1;
      }
      TouchedAt(d, vals - cond);
    }

    /** One clause on the list of an unassigned literal. */
    method VisitWatch(clauses: seq<Clause>, i: nat, u: Lit, w: Lit, keep: seq<nat>, rest: seq<nat>, d: nat) returns (watched: Option<Lit>, keep': seq<nat>)
      requires Valid() && clauses == first.clauses && Room(i) && Witnessed(clauses[i], Some(w)) && u !in vals
      requires Occ(watches, u) == keep + [d] + rest && Refined(first, watches, vals, cond, [d] + rest)
      modifies this`cond, this`conditional, this`watches
      ensures Valid() && old(cond) <= cond && old(conditional) <= conditional
      ensures Room(i) && Witnessed(clauses[i], watched) && Occ(watches, u) == keep' + rest
      ensures watched.Some? ==> Refined(first, watches, vals, cond, rest)
    {
      hide Distinct, Consistent, WatchIds, Base, Refined, Occ, Touched, HasTrue, Admits;
      WatchIdAt(first, |clauses|, watches, u, keep, rest, d);
      var replacement, negative := ScanWatched(clauses[d], vals, cond);
      watched, keep' := Some(w), keep + [d];
      if replacement.Some? {
        keep' := keep;
        MoveWatch(first, watches, ToSet(trail), vals, cond, u, replacement.value, keep, rest, d);
        WatchIdsMoved(first, |clauses|, watches, u, replacement.value, keep, rest, d);
        watches := Moved(watches, u, replacement.value, keep, rest, d);
      } else if negative == 0 {
        KeepWatch(first, watches, vals, cond, rest, d);
      } else {
        ghost var cond0 := cond;
        watched := TurnConditional(clauses[d], clauses[i], w);
        AdmitsTurn(first, i, ToSet(trail), vals, cond0, cond, d);
        MoreConditional(first, watches, vals, cond0, cond, [d] + rest);
        if watched.Some? {
          KeepWatch(first, watches, vals, cond, rest, d);
        }
      }
    }

    /** All clauses that the unassigned literal watches. */
    method ProcessUnassigned(clauses: seq<Clause>, i: nat, u: Lit, w: Lit) returns (watched: Option<Lit>)
      requires Valid() && clauses == first.clauses && Room(i) && Witnessed(clauses[i], Some(w)) && u !in vals
      requires Refined(first, watches, vals, cond, Occ(watches, u))
      modifies this`cond, this`conditional, this`watches, this`props
      ensures Valid() && old(cond) <= cond && old(conditional) <= conditional && props == old(props) + 1
      ensures Room(i) && Witnessed(clauses[i], watched) && (watched.Some? ==> Refined(first, watches, vals, cond, []))
    {
      hide Refined, Base, WatchIds, Distinct, Consistent, Occ, Admits, HasTrue;
      props := props + 1;
      watched := Some(w);
      var os := Occ(watches, u);
      var keep: seq<nat> := [];
      var j := 0;
      assert os[0..] == os;
      while j < |os| && watched.Some?
        invariant 0 <= j <= |os| && Valid() && old(cond) <= cond && old(conditional) <= conditional && props == old(props) + 1
        invariant Room(i) && Witnessed(clauses[i], watched) && Occ(watches, u) == keep + os[j..]
        invariant watched.Some? ==> Refined(first, watches, vals, cond, os[j..])
      {
        SplitAt(os, j, keep);
        watched, keep := VisitWatch(clauses, i, u, watched.value, keep, os[j + 1..], os[j]);
        j := j + 1;
      }
      assert j == |os| ==> os[j..] == [];
    }

    /**
     The refinement for one candidate: conditional literals whose negation is not in the candidate
     are unassigned, which turns autarky literals into conditional ones, until nothing changes.
     Nothing that blocks the candidate is lost.
     */
    method Refine(clauses: seq<Clause>, i: nat, w: Lit) returns (watched: Option<Lit>)
      requires Valid() && clauses == first.clauses && Room(i) && unassigned == []
      requires Witnessed(clauses[i], Some(w)) && Refined(first, watches, vals, cond, [])
      modifies this`vals, this`unassigned, this`cond, this`conditional, this`watches, this`props
      ensures Valid() && old(conditional) <= conditional && props >= old(props)
      ensures Room(i) && Witnessed(clauses[i], watched)
      ensures watched.Some? && props < limit ==> Refined(first, watches, vals, cond, [])
      ensures watched.Some? && props < limit ==> forall l | l in vals * cond :: Neg(l) in clauses[i]
    {
      hide Refined, Base, WatchIds, Consistent, Occ, Admits, HasTrue;
      watched := Some(w);
      var next := 0;
      while watched.Some? && props < limit && next < |conditional|
        invariant Valid() && old(conditional) <= conditional && 0 <= next <= |conditional| && props >= old(props)
        invariant Room(i) && Witnessed(clauses[i], watched)
        invariant watched.Some? ==> Refined(first, watches, vals, cond, [])
        invariant forall x | 0 <= x < next :: conditional[x] in vals ==> Neg(conditional[x]) in clauses[i]
        decreases |trail| - next
      {
        DistinctWithin(conditional, trail);
        hide Distinct;
        var l := conditional[next];
        next := next + 1;
        if Neg(l) !in clauses[i] {
          RefinedUnassign(first, watches, vals, cond, l);
          AdmitsUnassign(first, i, ToSet(trail), vals, cond, l);
          vals := vals - {l};
          unassigned := unassigned + [l];
          assert l in ToSet(conditional);
          watched := ProcessUnassigned(clauses, i, l, watched.value);
        }
      }
    }

    constructor (trail: seq<Lit>, limit: nat)
      requires Distinct(trail) && Consistent(trail)
      ensures this.trail == trail && this.limit == limit && Sorted() && unassigned == [] && conditional == [] && watches == map[]
    {
      this.trail, this.limit := trail, limit;
      vals, cond, watches := ToSet(trail), {}, map[];
      conditional, unassigned, props := [], [], 0;
    }

    /** The falsified literals of a clause without true literals are conditional from the start. */
    method MarkConditional(d: Clause)
      requires Sorted() && unassigned == []
      modifies this`cond, this`conditional
      ensures Sorted() && old(cond) <= cond && forall a | a in vals && Neg(a) in d :: a in cond
      ensures forall a | a in cond :: a in old(cond) || Neg(a) in d
    {
      for k := 0 to |d|
        invariant Sorted() && old(cond) <= cond && forall a | a in cond :: a in old(cond) || Neg(a) in d
        invariant forall x | 0 <= x < k && Neg(d[x]) in vals :: Neg(d[x]) in cond
      {
        var a := Neg(d[k]);
        assert Neg(a) == d[k];
        if a in vals && a !in cond {
          assert a !in conditional;
          cond := cond + {a};
          conditional := conditional + [a];
        }
      }
      forall a | a in vals && Neg(a) in d ensures a in cond {
        var x :| 0 <= x < |d| && d[x] == Neg(a);
        assert Neg(d[x]) == a;
      }
    }

    /** The first loop over all clauses: candidates, watches and the initial conditional part. */
    method Collect(e: Eliminator) returns (candidates: seq<nat>)
      requires e.Valid() && Sorted() && unassigned == [] && conditional == [] && watches == map[]
      requires TrailFree(trail, e.db.units)
      modifies this`watches, this`cond, this`conditional, this`first, e`db
      ensures e.Valid() && AtRest() && first == e.db && Equivalent(old(e.db), e.db)
      ensures e.db.clauses == old(e.db.clauses) && e.db.units == old(e.db.units)
      ensures forall i: nat :: i in candidates <==> Live(e.db, i) && HasTrue(e.db.clauses[i], ToSet(trail))
    {
      hide OccsOk, Formula, Simplified, Equivalent, WfClause, Distinct, Consistent, BaseUpto, StartUpto, HasTrue, Touched, WatchedBy, WatchIds, Occ, Base, Start, SourcedAll;
      candidates := [];
      EquivalentSelf(e.db);
      UptoStart(e.db, ToSet(trail));
      assert cond == {} && vals == ToSet(trail);
      for i := 0 to |e.db.clauses|
        invariant e.Valid() && Sorted() && e.db.clauses == old(e.db.clauses) && e.db.units == old(e.db.units)
        invariant Equivalent(old(e.db), e.db) && WatchIds(e.db, i, watches)
        invariant BaseUpto(e.db, watches, ToSet(trail), i) && StartUpto(e.db, ToSet(trail), cond, i)
        invariant SourcedAll(e.db, i, ToSet(trail), cond)
        invariant forall k: nat :: k in candidates <==> k < i && Live(e.db, k) && HasTrue(e.db.clauses[k], ToSet(trail))
      {
        var c := e.db.clauses[i];
        ghost var all := ToSet(trail);
        if e.db.garbage[i] {
          UptoGarbage(e.db, watches, all, cond, i);
          IdsMore(e.db, watches, all, cond, i);
        } else {
          var satisfied, positive, negative, watch := ScanInitial(c, e.db.units, vals, watches);
          if satisfied.Some? {
            ghost var db1 := e.db;
            SatisfiedGarbage(e.db, i, satisfied.value);
            UptoDrop(e.db, watches, all, cond, i, i);
            IdsDrop(e.db, watches, all, cond, i);
            e.DropClause(i);
            EquivalentTransitive(old(e.db), db1, e.db);
            UptoGarbage(e.db, watches, all, cond, i);
            IdsMore(e.db, watches, all, cond, i);
          } else {
            if positive > 0 {
              candidates := candidates + [i];
            }
            IdsMore(e.db, watches, all, cond, i);
            if positive > 0 && negative > 0 {
              UptoWatch(e.db, watches, all, cond, i, watch);
              watches := watches[watch := Occ(watches, watch) + [i]];
            } else if negative > 0 {
              ghost var cond0 := cond;
              MarkConditional(c);
              UptoConditional(e.db, watches, all, cond0, cond, i);
              IdsConditional(e.db, all, cond0, cond, i);
            } else {
              UptoUntouched(e.db, watches, all, cond, i);
            }
          }
        }
      }
      UptoEnd(e.db, watches, ToSet(trail), cond);
      first := e.db;
    }

    /** The autarky part of the trail. */
    method Autarky() returns (wit: seq<Lit>)
      requires Sorted()
      ensures Consistent(wit) && ToSet(wit) == vals - cond
    {
      wit := [];
      for k := 0 to |trail|
        invariant forall l :: l in wit <==> l in trail[..k] && l in vals && l !in cond
      {
        assert trail[..k + 1] == trail[..k] + [trail[k]];
        if trail[k] in vals && trail[k] !in cond {
          wit := wit + [trail[k]];
        }
      }
      assert trail[..|trail|] == trail;
      assert forall l | l in vals :: l in trail;
    }

    /** Back to the initial assignment and partition. */
    method Reset(n: nat)
      requires Sorted() && n <= |conditional|
      modifies this`vals, this`unassigned, this`cond, this`conditional
      ensures Sorted() && unassigned == [] && conditional == old(conditional)[..n]
    {
      while unassigned != []
        invariant Distinct(trail) && Consistent(trail) && cond == ToSet(conditional) && conditional == old(conditional)
        invariant vals + ToSet(unassigned) == ToSet(trail)
        decreases |unassigned|
      {
        var lit := unassigned[|unassigned| - 1];
        assert ToSet(unassigned) == ToSet(unassigned[..|unassigned| - 1]) + {lit} by {
          assert unassigned == unassigned[..|unassigned| - 1] + [lit];
        }
        unassigned := unassigned[..|unassigned| - 1];
        vals := vals + {lit};
      }
      while n < |conditional|
        invariant Sorted() && unassigned == [] && n <= |conditional| && conditional == old(conditional)[..|conditional|]
        decreases |conditional|
      {
        var last := |conditional| - 1;
        var lit := conditional[last];
        assert conditional == conditional[..last] + [lit];
        assert lit !in conditional[..last];
        assert ToSet(conditional[..last]) == cond - {lit};
        conditional := conditional[..last];
        cond := cond - {lit};
      }
    }

    /** The clause goes to the stack with the whole autarky as its witness. */
    method PushBlocked(e: Eliminator, i: nat, ghost w: Lit) returns (wit: seq<Lit>)
      requires e.Valid() && Live(e.db, i) && Shrunk(first, e.db) && Sorted() && TrailFree(trail, first.units)
      requires Refined(first, watches, vals, cond, []) && Witnessed(first.clauses[i], Some(w))
      requires forall l | l in vals * cond :: Neg(l) in first.clauses[i]
      modifies e`db, e.external`extension, e.external`entries
      ensures e.Valid() && e.db == MarkGarbage(old(e.db), i)
      ensures e.external.entries == old(e.external.entries) + [Entry(wit, old(e.db.clauses[i]))]
      ensures Consistent(wit) && ToSet(wit) == vals - cond && GloballyBlocked(first, i, vals - cond, vals * cond)
    {
      hide OccsOk, Formula, Simplified, WfClause, Distinct, Consistent, Occ, Refined, TrailFree, GloballyBlocked, Touched, HasTrue, WatchIds, Base, Start;
      wit := Autarky();
      FixPoint(first, i, trail, vals, cond, watches, w);
      StillBlocked(first, e.db, i, vals - cond, vals * cond);
      BlockedStep(e.original, e.db, e.external.entries, i, wit, vals * cond);
      OccsGarbage(e.db, e.occs, i);
      e.external.PushClauseAndWitness(e.db.clauses[i], wit);
      e.db := MarkGarbage(e.db, i);
    }

    /**
     One candidate: below the limit, it moves to the stack if and only if literals of the assignment
     block it globally in the formula whose clauses are watched. The whole autarky that is left is
     its witness, and the conditional part that is left is `part`.
     */
    method TryCandidate(e: Eliminator, i: nat) returns (wit: Option<seq<Lit>>, ghost part: set<Lit>)
      requires e.Valid() && AtRest() && Shrunk(first, e.db) && i < |e.db.clauses|
      modifies this`vals, this`unassigned, this`cond, this`conditional, this`watches, this`props
      modifies e`db, e.external`extension, e.external`entries
      ensures e.Valid() && AtRest() && Shrunk(first, e.db) && props >= old(props)
      ensures wit.None? ==> e.db == old(e.db) && e.external.entries == old(e.external.entries)
      ensures wit.Some? ==>
                && Live(old(e.db), i) && e.db == MarkGarbage(old(e.db), i)
                && e.external.entries == old(e.external.entries) + [Entry(wit.value, old(e.db.clauses[i]))]
                && Consistent(wit.value) && ToSet(wit.value) + part <= ToSet(trail)
                && GloballyBlocked(first, i, ToSet(wit.value), part)
      ensures wit.None? && props < limit && Live(e.db, i) ==> !CanBlock(first, i, ToSet(trail))
    {
      hide OccsOk, Formula, Simplified, WfClause, Distinct, Consistent, HasTrue, Touched, WatchIds, Occ, Base, Start, Refined, TrailFree, GloballyBlocked, Admits, CanBlock, SourcedAll;
      wit, part := None, {};
      if e.db.garbage[i] {
        return;
      }
      var w := FindAutarky(e.db.clauses[i]);
      assert vals == ToSet(trail);
      AdmitsStart(first, i, |first.clauses|, ToSet(trail), cond);
      if w.None? {
        AdmitsNone(first, i, ToSet(trail), vals, cond);
        return;
      }
      var n := |conditional|;
      RefinedStart(first, watches, ToSet(trail), cond);
      ghost var cond0 := cond;
      var watched := Refine(e.db.clauses, i, w.value);
      if watched.Some? && props < limit {
        var pushed := PushBlocked(e, i, watched.value);
        wit, part := Some(pushed), vals * cond;
      } else if watched.None? {
        AdmitsNone(first, i, ToSet(trail), vals, cond);
      }
      Reset(n);
      assert conditional == old(conditional) && cond == cond0;
    }
  }

  ghost predicate TrailFree(trail: seq<Lit>, units: set<Lit>) {
    forall l | l in trail :: l !in units && Neg(l) !in units
  }

  /** The end of the refinement is a global blocking. */
  lemma FixPoint(db: Db, i: nat, trail: seq<Lit>, vals: set<Lit>, cond: set<Lit>, watches: Watches, w: Lit)
    requires Live(db, i) && Consistent(trail) && vals <= ToSet(trail) && TrailFree(trail, db.units)
    requires Refined(db, watches, vals, cond, []) && w in db.clauses[i] && w in vals - cond
    requires forall l | l in vals * cond :: Neg(l) in db.clauses[i]
    ensures GloballyBlocked(db, i, vals - cond, vals * cond)
  {
    var aut := vals - cond;
    assert aut + vals * cond == vals;
    assert forall l | l in vals :: l in trail;
    forall l | l in vals ensures Neg(l) !in vals {
      assert Neg(l) in vals ==> Neg(l) in trail;
    }
    forall j: nat | Live(db, j) && Touched(db.clauses[j], aut) ensures HasTrue(db.clauses[j], aut + vals * cond) {
      var l :| l in db.clauses[j] && l in vals && j in Occ(watches, l);
    }
  }

  // ----- collecting candidates -----

  ghost predicate BaseUpto(db: Db, watches: Watches, all: set<Lit>, n: nat) {
    forall i: nat | i < n && Live(db, i) && Touched(db.clauses[i], all) && HasTrue(db.clauses[i], all) ::
      WatchedBy(db.clauses[i], i, watches, all)
  }

  ghost predicate StartUpto(db: Db, all: set<Lit>, init: set<Lit>, n: nat) {
    forall i: nat, a: Lit | i < n && Live(db, i) && a in all && Neg(a) in db.clauses[i] && !HasTrue(db.clauses[i], all) :: a in init
  }

  lemma UptoStart(db: Db, all: set<Lit>)
    ensures BaseUpto(db, map[], all, 0) && StartUpto(db, all, {}, 0) && WatchIds(db, 0, map[]) && SourcedAll(db, 0, all, {})
  {
  }

  lemma UptoEnd(db: Db, watches: Watches, all: set<Lit>, cond: set<Lit>)
    requires BaseUpto(db, watches, all, |db.clauses|) && StartUpto(db, all, cond, |db.clauses|)
    ensures Base(db, watches, all) && Start(db, all, cond)
  {
    hide Touched, HasTrue, WatchedBy;
  }

  lemma UptoGarbage(db: Db, watches: Watches, all: set<Lit>, cond: set<Lit>, n: nat)
    requires BaseUpto(db, watches, all, n) && StartUpto(db, all, cond, n) && !Live(db, n)
    ensures BaseUpto(db, watches, all, n + 1) && StartUpto(db, all, cond, n + 1)
  {
    hide Touched, HasTrue, WatchedBy;
  }

  lemma IdsMore(db: Db, watches: Watches, all: set<Lit>, cond: set<Lit>, n: nat)
    requires WatchIds(db, n, watches) && SourcedAll(db, n, all, cond)
    ensures WatchIds(db, n + 1, watches) && SourcedAll(db, n + 1, all, cond)
  {
    hide HasTrue, Occ;
    forall a | a in cond ensures Sourced(db, n + 1, all, a) {
      assert Sourced(db, n, all, a);
    }
  }

  lemma IdsDrop(db: Db, watches: Watches, all: set<Lit>, cond: set<Lit>, n: nat)
    requires WatchIds(db, n, watches) && SourcedAll(db, n, all, cond) && Live(db, n)
    ensures WatchIds(MarkGarbage(db, n), n, watches) && SourcedAll(MarkGarbage(db, n), n, all, cond)
  {
    hide HasTrue, Occ;
    forall a | a in cond ensures Sourced(MarkGarbage(db, n), n, all, a) {
      assert Sourced(db, n, all, a);
    }
  }

  lemma IdsConditional(db: Db, all: set<Lit>, cond: set<Lit>, cond': set<Lit>, n: nat)
    requires SourcedAll(db, n, all, cond) && Live(db, n) && !HasTrue(db.clauses[n], all)
    requires forall a | a in cond' :: a in cond || Neg(a) in db.clauses[n]
    ensures SourcedAll(db, n + 1, all, cond')
  {
    hide HasTrue;
    forall a | a in cond' ensures Sourced(db, n + 1, all, a) {
      assert a in cond ==> Sourced(db, n, all, a);
    }
  }

  lemma UptoDrop(db: Db, watches: Watches, all: set<Lit>, cond: set<Lit>, n: nat, i: nat)
    requires BaseUpto(db, watches, all, n) && StartUpto(db, all, cond, n) && Live(db, i)
    ensures BaseUpto(MarkGarbage(db, i), watches, all, n) && StartUpto(MarkGarbage(db, i), all, cond, n)
  {
    hide Touched, HasTrue, WatchedBy;
    var db' := MarkGarbage(db, i);
    assert forall j: nat | Live(db', j) :: Live(db, j);
  }

  lemma UptoUntouched(db: Db, watches: Watches, all: set<Lit>, cond: set<Lit>, n: nat)
    requires BaseUpto(db, watches, all, n) && StartUpto(db, all, cond, n) && Live(db, n) && !Touched(db.clauses[n], all)
    ensures BaseUpto(db, watches, all, n + 1) && StartUpto(db, all, cond, n + 1)
  {
    hide HasTrue, WatchedBy;
  }

  lemma UptoConditional(db: Db, watches: Watches, all: set<Lit>, cond: set<Lit>, cond': set<Lit>, n: nat)
    requires BaseUpto(db, watches, all, n) && StartUpto(db, all, cond, n) && Live(db, n) && !HasTrue(db.clauses[n], all)
    requires cond <= cond' && forall a | a in all && Neg(a) in db.clauses[n] :: a in cond'
    ensures BaseUpto(db, watches, all, n + 1) && StartUpto(db, all, cond', n + 1)
  {
    hide HasTrue, WatchedBy, Touched;
  }

  lemma UptoWatch(db: Db, watches: Watches, all: set<Lit>, cond: set<Lit>, n: nat, w: Lit)
    requires BaseUpto(db, watches, all, n) && StartUpto(db, all, cond, n) && Live(db, n) && WatchIds(db, n, watches)
    requires w in db.clauses[n] && w in all
    ensures var watches' := watches[w := Occ(watches, w) + [n]];
            BaseUpto(db, watches', all, n + 1) && StartUpto(db, all, cond, n + 1) && WatchIds(db, n + 1, watches')
  {
    var watches' := watches[w := Occ(watches, w) + [n]];
    assert forall l: Lit, i | i in Occ(watches, l) :: i in Occ(watches', l);
    assert n in Occ(watches', w);
    forall l: Lit, i: nat | i in Occ(watches', l) ensures i < n + 1 && Live(db, i) {
      assert i == n || i in Occ(watches, l);
    }
    hide Touched, Occ;
    assert HasTrue(db.clauses[n], all);
    hide HasTrue;
    forall i: nat | i < n + 1 && Live(db, i) && Touched(db.clauses[i], all) && HasTrue(db.clauses[i], all)
      ensures WatchedBy(db.clauses[i], i, watches', all)
    {
      if i < n {
        var l :| l in db.clauses[i] && l in all && i in Occ(watches, l);
        assert i in Occ(watches', l);
      }
    }
  }

  /** True, false and root-satisfied literals of one clause; the watch is the rarest true literal. */
  method ScanInitial(c: Clause, units: set<Lit>, vals: set<Lit>, watches: Watches)
      returns (satisfied: Option<Lit>, positive: nat, negative: nat, watch: Lit)
    ensures satisfied.Some? ==> satisfied.value in c && satisfied.value in units
    ensures satisfied.None? ==> forall l | l in c :: l !in units
    ensures satisfied.None? ==> (positive > 0 <==> HasTrue(c, vals)) && (negative > 0 <==> Touched(c, vals))
    ensures positive > 0 ==> watch in c && watch in vals
  {
    satisfied, positive, negative, watch := None, 0, 0, Lit(0, false);
    var minsize := 0;
    for k := 0 to |c|
      invariant forall x | 0 <= x < k :: c[x] !in units
      invariant positive > 0 <==> exists x | 0 <= x < k :: c[x] in vals
      invariant negative > 0 <==> exists x | 0 <= x < k :: Neg(c[x]) in vals
      invariant positive > 0 ==> watch in c && watch in vals
    {
      if c[k] in units {
        return Some(c[k]), positive, negative, watch;
      }
      if Neg(c[k]) in vals {
        negative := negative + 1;
      }
      if c[k] in vals {
        var size := |Occ(watches, c[k])|;
        if positive == 0 || size < minsize {
          watch, minsize := c[k], size;
        }
        positive := positive + 1;
      }
    }
    TouchedAt(c, vals);
  }

  // ----- the round -----

  lemma TrailPush(trail: seq<Lit>, l: Lit, units: set<Lit>)
    requires Distinct(trail) && Consistent(trail) && TrailFree(trail, units)
    requires forall k | k in trail :: k.v != l.v
    requires forall u | u in units :: u.v != l.v
    ensures Distinct(trail + [l]) && Consistent(trail + [l]) && TrailFree(trail + [l], units)
  {
    forall k | k in trail + [l] ensures Neg(k) !in trail + [l] {
      assert Neg(k).v == k.v && Neg(k) != k;
    }
  }

  /** Literals over active variables that are not frozen. */
  ghost predicate Usable(trail: seq<Lit>, active: set<nat>, frozen: set<nat>) {
    forall l | l in trail :: l.v in active && l.v !in frozen
  }

  predicate HasVar(trail: seq<Lit>, v: nat) {
    Lit(v, true) in trail || Lit(v, false) in trail
  }

  lemma HasVarIff(trail: seq<Lit>, v: nat)
    ensures HasVar(trail, v) <==> exists l | l in trail :: l.v == v
  {
    forall l | l in trail && l.v == v ensures HasVar(trail, v) {
      assert l == Lit(v, true) || l == Lit(v, false);
    }
  }

  /**
   The first loop of `condition_round`: literals of the search above the root level stay unless
   their variable is frozen or inactive, and the other active variables are decided.
   */
  method CompleteAssignment(search: seq<Lit>, units: set<Lit>, maxVar: nat, active: set<nat>, frozen: set<nat>, phases: set<nat>)
      returns (trail: seq<Lit>)
    requires Distinct(search) && Consistent(search) && TrailFree(search, units) && forall u | u in units :: u.v !in active
    ensures Distinct(trail) && Consistent(trail) && TrailFree(trail, units) && Usable(trail, active, frozen)
    ensures forall l | l in search && l.v in active && l.v !in frozen :: l in trail
    ensures forall v | 1 <= v <= maxVar && v in active && v !in frozen :: HasVar(trail, v)
  {
    hide Distinct, Consistent, TrailFree, Usable, HasVar;
    trail := Unfrozen(search, units, active, frozen);
    for v := 1 to maxVar + 1
      invariant Distinct(trail) && Consistent(trail) && TrailFree(trail, units) && Usable(trail, active, frozen)
      invariant forall l | l in search && l.v in active && l.v !in frozen :: l in trail
      invariant forall u | 1 <= u < v && u in active && u !in frozen :: HasVar(trail, u)
    {
      HasVarIff(trail, v);
      if !HasVar(trail, v) && v in active && v !in frozen {
        var l := Lit(v, v in phases);
        TrailPush(trail, l, units);
        UsablePush(trail, l, active, frozen);
        trail := trail + [l];
      }
    }
  }

  lemma UsablePush(trail: seq<Lit>, l: Lit, active: set<nat>, frozen: set<nat>)
    requires Usable(trail, active, frozen) && l.v in active && l.v !in frozen
    ensures Usable(trail + [l], active, frozen) && HasVar(trail + [l], l.v) && forall v | HasVar(trail, v) :: HasVar(trail + [l], v)
  {
    assert l == Lit(l.v, true) || l == Lit(l.v, false);
  }

  method Unfrozen(search: seq<Lit>, units: set<Lit>, active: set<nat>, frozen: set<nat>) returns (trail: seq<Lit>)
    requires Distinct(search) && Consistent(search) && TrailFree(search, units)
    ensures Distinct(trail) && Consistent(trail) && TrailFree(trail, units) && Usable(trail, active, frozen)
    ensures forall l | l in search && l.v in active && l.v !in frozen :: l in trail
  {
    trail := [];
    for k := 0 to |search|
      invariant Distinct(trail) && Usable(trail, active, frozen) && forall l | l in trail :: l in search[..k]
      invariant forall l | l in search[..k] && l.v in active && l.v !in frozen :: l in trail
    {
      assert search[..k + 1] == search[..k] + [search[k]];
      if search[k].v in active && search[k].v !in frozen {
        trail := trail + [search[k]];
      }
    }
    assert search[..|search|] == search;
  }

  /** A clause that went to the stack, with its witness and the conditional literals that were left. */
  datatype Move = Move(i: nat, wit: seq<Lit>, part: set<Lit>)

  ghost function Applied(db: Db, moves: seq<Move>): (r: Db) {
    if moves == [] then db
    else
      var k := |moves| - 1;
      var d := Applied(db, moves[..k]);
      if moves[k].i < |d.garbage| then MarkGarbage(d, moves[k].i) else d
  }

  ghost function Pushed(db: Db, moves: seq<Move>): (r: seq<Entry>) {
    if moves == [] then []
    else
      var k := |moves| - 1;
      Pushed(db, moves[..k]) + [Entry(moves[k].wit, if moves[k].i < |db.clauses| then db.clauses[moves[k].i] else [])]
  }

  /** Literals of the assignment block each clause globally, and each goes once. */
  ghost predicate Legal(db: Db, all: set<Lit>, moves: seq<Move>) {
    forall k | 0 <= k < |moves| ::
      && Consistent(moves[k].wit) && ToSet(moves[k].wit) + moves[k].part <= all
      && Live(Applied(db, moves[..k]), moves[k].i)
      && GloballyBlocked(db, moves[k].i, ToSet(moves[k].wit), moves[k].part)
  }

  lemma LegalMore(db: Db, now: Db, all: set<Lit>, moves: seq<Move>, m: Move)
    requires Legal(db, all, moves) && now == Applied(db, moves) && now.clauses == db.clauses && Live(now, m.i)
    requires Consistent(m.wit) && ToSet(m.wit) + m.part <= all && GloballyBlocked(db, m.i, ToSet(m.wit), m.part)
    ensures Legal(db, all, moves + [m]) && Applied(db, moves + [m]) == MarkGarbage(now, m.i)
    ensures Pushed(db, moves + [m]) == Pushed(db, moves) + [Entry(m.wit, now.clauses[m.i])]
  {
    hide GloballyBlocked, Consistent;
    var moves' := moves + [m];
    assert moves'[..|moves|] == moves;
    forall k | 0 <= k < |moves'| ensures Live(Applied(db, moves'[..k]), moves'[k].i) {
      assert moves'[..k] == moves[..k];
    }
  }

  /** What went could be blocked and was no reason. */
  ghost predicate OnlyBlocked(db: Db, now: Db, all: set<Lit>, reasons: set<nat>) {
    forall i: nat | Live(db, i) && !Live(now, i) :: i !in reasons && CanBlock(db, i, all)
  }

  /** The candidates that could be blocked and are no reasons went. */
  ghost predicate AllBlocked(db: Db, now: Db, all: set<Lit>, reasons: set<nat>, candidates: seq<nat>) {
    forall i | i in candidates && i !in reasons && CanBlock(db, i, all) :: !Live(now, i)
  }

  lemma BlockedGoes(db: Db, now: Db, i: nat, aut: set<Lit>, con: set<Lit>, all: set<Lit>, reasons: set<nat>)
    requires OnlyBlocked(db, now, all, reasons) && Live(now, i) && i !in reasons
    requires aut + con <= all && GloballyBlocked(db, i, aut, con)
    ensures OnlyBlocked(db, MarkGarbage(now, i), all, reasons)
  {
    hide GloballyBlocked;
    forall j: nat | Live(db, j) && !Live(MarkGarbage(now, i), j) ensures j !in reasons && CanBlock(db, j, all) {
      assert j != i ==> !Live(now, j);
    }
  }

  lemma AllBlockedMore(db: Db, now: Db, now': Db, all: set<Lit>, reasons: set<nat>, candidates: seq<nat>, k: nat)
    requires k < |candidates| && AllBlocked(db, now, all, reasons, candidates[..k]) && Shrunk(now, now')
    requires candidates[k] in reasons || !Live(now', candidates[k]) || !CanBlock(db, candidates[k], all)
    ensures AllBlocked(db, now', all, reasons, candidates[..k + 1])
  {
    hide CanBlock;
    assert candidates[..k + 1] == candidates[..k] + [candidates[k]];
  }

  /** Only a clause with a true literal can be blocked. */
  lemma BlockedHasTrue(db: Db, i: nat, all: set<Lit>)
    requires CanBlock(db, i, all)
    ensures Live(db, i) && HasTrue(db.clauses[i], all)
  {
    var aut: set<Lit>, con: set<Lit> :| aut + con <= all && GloballyBlocked(db, i, aut, con);
    var l :| l in db.clauses[i] && l in aut;
  }

  /** Exactly the clauses that can be blocked and are no reasons went. */
  ghost predicate RoundExact(db: Db, now: Db, all: set<Lit>, reasons: set<nat>) {
    forall i: nat | Live(db, i) :: !Live(now, i) <==> i !in reasons && CanBlock(db, i, all)
  }

  lemma RoundEnd(db: Db, now: Db, all: set<Lit>, reasons: set<nat>, candidates: seq<nat>)
    requires OnlyBlocked(db, now, all, reasons) && AllBlocked(db, now, all, reasons, candidates)
    requires forall i: nat :: i in candidates <==> Live(db, i) && HasTrue(db.clauses[i], all)
    ensures RoundExact(db, now, all, reasons)
  {
    hide CanBlock, HasTrue;
    forall i: nat | Live(db, i) && CanBlock(db, i, all) ensures i in candidates {
      BlockedHasTrue(db, i, all);
    }
  }

  /**
   `condition_round`: the formula keeps its meaning through the stack, and the assignment blocks
   each clause that is pushed. A round that is not stopped moves every such clause that is no reason.
   */
  method ConditionRound(e: Eliminator, search: seq<Lit>, maxVar: nat, active: set<nat>, frozen: set<nat>, phases: set<nat>, reasons: set<nat>, limit: nat)
      returns (complete: bool, ghost start: Db, ghost all: set<Lit>, ghost moves: seq<Move>)
    requires e.Valid() && Distinct(search) && Consistent(search) && TrailFree(search, e.db.units)
    requires forall u | u in e.db.units :: u.v !in active
    modifies e`db, e.external`extension, e.external`entries
    ensures e.Valid() && e.db.clauses == old(e.db.clauses) && e.db.units == old(e.db.units)
    ensures Equivalent(old(e.db), start) && start.clauses == old(e.db.clauses) && (forall l | l in all :: l.v in active && l.v !in frozen)
    ensures Legal(start, all, moves) && e.db == Applied(start, moves)
    ensures e.external.entries == old(e.external.entries) + Pushed(start, moves)
    ensures OnlyBlocked(start, e.db, all, reasons) && (complete ==> RoundExact(start, e.db, all, reasons))
  {
    hide OccsOk, Formula, Simplified, WfClause, Distinct, Consistent, Equivalent, Legal, GloballyBlocked, TrailFree, CanBlock, HasTrue, OnlyBlocked, AllBlocked, RoundExact;
    var trail := CompleteAssignment(search, e.db.units, maxVar, active, frozen, phases);
    all := ToSet(trail);
    var r := new Conditioner(trail, limit);
    var candidates := r.Collect(e);
    start, moves, complete := e.db, [], true;
    LegalNone(start, all, reasons);
    for k := 0 to |candidates|
      invariant e.Valid() && r.AtRest() && r.first == start && Shrunk(start, e.db)
      invariant Legal(start, all, moves) && e.db == Applied(start, moves)
      invariant e.external.entries == old(e.external.entries) + Pushed(start, moves)
      invariant OnlyBlocked(start, e.db, all, reasons)
      invariant complete && r.props < limit ==> AllBlocked(start, e.db, all, reasons, candidates[..k])
    {
      var stop: bool := *;
      if stop || r.props >= limit {
        complete := false;
        break;
      }
      assert candidates[k] in candidates;
      ghost var now := e.db;
      if candidates[k] !in reasons {
        var wit, part := r.TryCandidate(e, candidates[k]);
        if wit.Some? {
          LegalMore(start, now, all, moves, Move(candidates[k], wit.value, part));
          moves := moves + [Move(candidates[k], wit.value, part)];
          BlockedGoes(start, now, candidates[k], ToSet(wit.value), part, all, reasons);
        }
      }
      if r.props < limit && complete {
        AllBlockedMore(start, now, e.db, all, reasons, candidates, k);
      }
    }
    complete := complete && r.props < limit;
    if complete {
      assert candidates[..|candidates|] == candidates;
      RoundEnd(start, e.db, all, reasons, candidates);
    }
  }

  lemma LegalNone(db: Db, all: set<Lit>, reasons: set<nat>)
    ensures Legal(db, all, []) && Applied(db, []) == db && Pushed(db, []) == []
    ensures OnlyBlocked(db, db, all, reasons) && AllBlocked(db, db, all, reasons, [])
  {
  }
}
