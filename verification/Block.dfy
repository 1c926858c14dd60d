/**
 Blocked clauses: a clause is blocked on a literal when all its resolvents on
 it are tautological. The test moves clauses and literals to the front in
 place while it searches.
 */
module Block {
  import opened Cnf
  import opened Extension
  import opened Elim

  /** The resolvent of c and d on lit has two complementary literals. */
  predicate Tautological(c: Clause, lit: Lit, d: Clause) {
    exists l | l in d && l != Neg(lit) :: Neg(l) in c
  }

  /** That is: every assignment satisfies the resolvent. */
  lemma TautologicalIff(c: Clause, lit: Lit, d: Clause)
    requires Consistent(c) && Consistent(d) && lit in c && Neg(lit) in d
    ensures Tautological(c, lit, d) <==> forall m: Assignment :: Resolved(m, c, lit, d)
  {
    if Tautological(c, lit, d) {
      var l :| l in d && l != Neg(lit) && Neg(l) in c;
      assert Neg(l) != lit;
      forall m: Assignment ensures Resolved(m, c, lit, d) {
        assert True(m, l) || True(m, Neg(l));
      }
    } else {
      var m := (set l | l in c && l != lit && !l.pos :: l.v) + (set l | l in d && l != Neg(lit) && !l.pos :: l.v);
      forall l | l in c && l != lit ensures !True(m, l) {
        if l.pos {
          assert Neg(l) !in c && Neg(Neg(l)) == l;
          assert forall k: Lit | k.v == l.v && !k.pos :: k == Neg(l);
        }
      }
      forall l | l in d && l != Neg(lit) ensures !True(m, l) {
        if l.pos {
          assert Neg(l) !in d && Neg(l) !in c;
          assert forall k: Lit | k.v == l.v && !k.pos :: k == Neg(l);
        }
      }
      assert !Resolved(m, c, lit, d);
    }
  }

  /** A blocked clause is repaired by its blocking literal. */
  lemma BlockedRedundant(f: set<Clause>, c: Clause, lit: Lit)
    requires lit in c && (forall d | d in f :: Consistent(d))
    requires forall d | d in f && Neg(lit) in d :: Tautological(c, lit, d)
    ensures Redundant(f, Entry([lit], c))
  {
    forall m: Assignment | Sat(m, f) && !SatClause(m, c) ensures Sat(PutAll(m, [lit]), f + {c}) {
      PutOne(m, lit);
      var r := Put(m, lit);
      forall d | d in f + {c} ensures SatClause(r, d) {
        if lit in d {
        } else if Neg(lit) in d {
          var l :| l in d && l != Neg(lit) && Neg(l) in c;
          assert !True(m, Neg(l));
          assert l.v != lit.v;
          assert True(r, l);
        } else {
          var l :| l in d && True(m, l);
          assert l.v != lit.v;
          assert True(r, l);
        }
      }
    }
  }

  // ----- the test -----

  /** s with its element k moved to the front. */
  ghost function Rotated<T>(s: seq<T>, k: nat): (r: seq<T>)
    requires k < |s|
    ensures multiset(r) == multiset(s)
  {
    assert s == s[..k] + [s[k]] + s[k + 1..];
    [s[k]] + s[..k] + s[k + 1..]
  }

  /**
   The inner pass: the literals move back by one until a complementary literal is found, which
   then comes first; without one they all move forward again.
   */
  method FindTautological(d: array<Lit>, lit: Lit, marked: set<Lit>) returns (found: bool, ghost k: nat)
    modifies d
    ensures found ==> k < d.Length && old(d[k]) != Neg(lit) && Neg(old(d[k])) in marked
    ensures found ==> d[..] == Rotated(old(d[..]), k)
    ensures !found ==> d[..] == old(d[..]) && forall l | l in old(d[..]) && l != Neg(lit) :: Neg(l) !in marked
  {
    hide Rotated;
    ghost var s := d[..];
    var prev := Lit(0, false);
    var i := 0;
    found, k := false, 0;
    while i < d.Length
      invariant 0 <= i <= d.Length && Shifted(s, d[..], i) && (i > 0 ==> prev == s[i - 1])
      invariant forall x | 0 <= x < i && s[x] != Neg(lit) :: Neg(s[x]) !in marked
    {
      var other := d[i];
      ghost var before := d[..];
      d[i] := prev;
      prev := other;
      ghost var now := d[..];
      ShiftedNext(s, before, now, i);
      if other != Neg(lit) && Neg(other) in marked {
        d[0] := other;
        k := i;
        ShiftedRotated(s, now, d[..], k);
        return true, k;
      }
      i := i + 1;
    }
    Restore(d, prev, s);
  }

  /** The first i elements were moved back by one. */
  ghost predicate Shifted<T>(s: seq<T>, t: seq<T>, i: nat) {
    && |s| == |t| && i <= |s|
    && (forall x | 1 <= x < i :: t[x] == s[x - 1])
    && (forall x | i <= x < |s| :: t[x] == s[x])
  }

  lemma ShiftedStart<T>(s: seq<T>)
    ensures Shifted(s, s, 0)
  {
  }

  lemma ShiftedAt<T>(s: seq<T>, t: seq<T>, i: nat)
    requires Shifted(s, t, i) && i < |s|
    ensures t[i] == s[i]
  {
  }

  lemma ShiftedNext<T>(s: seq<T>, t: seq<T>, t': seq<T>, i: nat)
    requires Shifted(s, t, i) && i < |s| && |t'| == |t| && t' == t[i := t'[i]] && (i > 0 ==> t'[i] == s[i - 1])
    ensures Shifted(s, t', i + 1)
  {
  }

  lemma ShiftedRotated<T>(s: seq<T>, t: seq<T>, t': seq<T>, k: nat)
    requires k < |s| && Shifted(s, t, k + 1) && t' == t[0 := s[k]]
    ensures t' == Rotated(s, k)
  {
  }

  /** All elements were moved back by one; they move forward again. */
  method Restore<T>(a: array<T>, last: T, ghost s: seq<T>)
    requires Shifted(s, a[..], |s|) && (|s| > 0 ==> last == s[|s| - 1])
    modifies a
    ensures a[..] == s
  {
    var prev := last;
    var i := a.Length;
    while i > 0
      invariant 0 <= i <= a.Length && Shifted(s, a[..], i) && (i > 0 ==> prev == s[i - 1])
    {
      i := i - 1;
      var x := a[i];
      a[i] := prev;
      prev := x;
    }
    assert a[..] == s;
  }

  ghost predicate SameLiterals(a: seq<Lit>, b: seq<Lit>) {
    multiset(a) == multiset(b)
  }

  lemma SameTautological(c: Clause, lit: Lit, a: Clause, b: Clause)
    requires SameLiterals(a, b)
    ensures Tautological(c, lit, a) <==> Tautological(c, lit, b)
  {
    forall l ensures l in a <==> l in b {
      assert l in multiset(a) <==> l in multiset(b);
    }
  }

  /** Distinct clauses are stored apart. */
  ghost predicate Apart(clauses: seq<array<Lit>>) {
    forall i, j | 0 <= i < j < |clauses| :: clauses[i] != clauses[j]
  }

  ghost function Contents(clauses: seq<array<Lit>>): (r: seq<Clause>)
    reads clauses
    ensures |r| == |clauses| && forall i | 0 <= i < |clauses| :: r[i] == clauses[i][..]
  {
    seq(|clauses|, i requires 0 <= i < |clauses| reads clauses => clauses[i][..])
  }

  ghost predicate Permuted(a: seq<Clause>, b: seq<Clause>) {
    |a| == |b| && forall i | 0 <= i < |a| :: SameLiterals(a[i], b[i])
  }

  /**
   `is_blocked_clause`: the clauses in the occurrence list of the negated literal are tried in
   order. Every clause keeps its literals; the list is restored when c is blocked, and otherwise
   has the first witness against it in front.
   */
  method IsBlockedClause(c: Clause, lit: Lit, os: array<nat>, clauses: seq<array<Lit>>) returns (res: bool, ghost k: nat)
    requires Apart(clauses) && forall x | 0 <= x < os.Length :: os[x] < |clauses|
    modifies os, clauses
    ensures Permuted(old(Contents(clauses)), Contents(clauses))
    ensures res <==> forall x | 0 <= x < os.Length :: Tautological(c, lit, old(clauses[os[x]][..]))
    ensures res ==> os[..] == old(os[..])
    ensures !res ==> k < os.Length && os[..] == Rotated(old(os[..]), k) && !Tautological(c, lit, old(clauses[os[k]][..]))
  {
    hide Permuted, Tautological, Apart, Rotated, Shifted;
    ShiftedStart(os[..]);
    ghost var s := os[..];
    ghost var ds := Contents(clauses);
    var prev := 0;
    var i := 0;
    res, k := true, 0;
    SameSelf(ds);
    while i < os.Length
      invariant 0 <= i <= os.Length && Shifted(s, os[..], i) && (i > 0 ==> prev == s[i - 1])
      invariant Permuted(ds, Contents(clauses))
      invariant forall x | 0 <= x < i :: Tautological(c, lit, ds[s[x]])
    {
      var d := os[i];
      ShiftedAt(s, os[..], i);
      ghost var before := os[..];
      os[i] := prev;
      prev := d;
      ghost var now := os[..];
      var found := TryClause(c, lit, d, clauses, ds);
      assert os[..] == now == before[i := os[i]];
      ShiftedNext(s, before, now, i);
      if !found {
        os[0] := d;
        k := i;
        ShiftedRotated(s, now, os[..], k);
        return false, k;
      }
      i := i + 1;
    }
    Restore(os, prev, s);
  }

  /** One clause of the occurrence list. */
  method TryClause(c: Clause, lit: Lit, d: nat, clauses: seq<array<Lit>>, ghost ds: seq<Clause>) returns (found: bool)
    requires Apart(clauses) && d < |clauses| && Permuted(ds, Contents(clauses))
    modifies clauses
    ensures Permuted(ds, Contents(clauses)) && found == Tautological(c, lit, ds[d])
  {
    hide Tautological;
    ghost var now := Contents(clauses);
    ghost var at;
    found, at := FindTautological(clauses[d], lit, ToSet(c));
    FoundIff(c, lit, now[d], found, at);
    SameTautological(c, lit, ds[d], now[d]);
    StillPermuted(ds, now, Contents(clauses), d);
  }

  lemma SameSelf(ds: seq<Clause>)
    ensures Permuted(ds, ds)
  {
  }

  lemma FoundIff(c: Clause, lit: Lit, d: Clause, found: bool, k: nat)
    requires found ==> k < |d| && d[k] != Neg(lit) && Neg(d[k]) in ToSet(c)
    requires !found ==> forall l | l in d && l != Neg(lit) :: Neg(l) !in ToSet(c)
    ensures found <==> Tautological(c, lit, d)
  {
  }

  lemma StillPermuted(ds: seq<Clause>, now: seq<Clause>, after: seq<Clause>, d: nat)
    requires Permuted(ds, now) && |after| == |now| && d < |now|
    requires forall i | 0 <= i < |now| && i != d :: after[i] == now[i]
    requires multiset(after[d]) == multiset(now[d])
    ensures Permuted(ds, after)
  {
  }

  // ----- blocking all clauses of a literal -----

  /** Clause i is blocked on lit. */
  ghost predicate Blocked(db: Db, i: nat, lit: Lit) {
    && Live(db, i) && lit in db.clauses[i]
    && forall k: nat | Live(db, k) && Neg(lit) in db.clauses[k] :: Tautological(db.clauses[i], lit, db.clauses[k])
  }

  /** The size limits do not matter for a pure literal. */
  ghost predicate Within(db: Db, i: nat, lit: Lit, lo: nat, hi: nat)
    requires i < |db.clauses|
  {
    forall k: nat | Live(db, k) && Neg(lit) in db.clauses[k] :: lo <= |db.clauses[i]| <= hi && |db.clauses[k]| <= hi
  }

  ghost predicate Removable(db: Db, i: nat, lit: Lit, lo: nat, hi: nat) {
    Blocked(db, i, lit) && Within(db, i, lit, lo, hi)
  }

  /** Among the clauses left, units included, those with the negated literal clash with a blocked clause. */
  lemma BlockedAmong(db: Db, i: nat, lit: Lit, d: Clause)
    requires WfDb(db) && Blocked(db, i, lit) && PivotFree(db.units, lit.v) && d in Formula(MarkGarbage(db, i))
    ensures Consistent(d) && (Neg(lit) in d ==> Tautological(db.clauses[i], lit, d))
  {
    hide Tautological;
    if k: nat :| k < |db.clauses| && Live(MarkGarbage(db, i), k) && db.clauses[k] == d {
      assert Live(db, k) && WfClause(db.clauses[k]);
    } else if u :| u in db.units && d == [u] {
      assert u.v != lit.v;
    }
  }

  /** A blocked clause may go to the stack with its blocking literal. */
  lemma BlockedStep(orig: set<Clause>, db: Db, es: seq<Entry>, i: nat, lit: Lit)
    requires Simplified(orig, Formula(db), es) && WfDb(db) && Blocked(db, i, lit) && PivotFree(db.units, lit.v)
    ensures Simplified(orig, Formula(MarkGarbage(db, i)), es + [Entry([lit], db.clauses[i])])
  {
    hide Formula, Simplified, Redundant, PivotFree, WfDb, Tautological;
    var f := Formula(MarkGarbage(db, i));
    forall d | d in f ensures Consistent(d) && (Neg(lit) in d ==> Tautological(db.clauses[i], lit, d)) {
      BlockedAmong(db, i, lit, d);
    }
    BlockedRedundant(f, db.clauses[i], lit);
    GarbageFormula(db, i);
    WeakenStep(orig, Formula(db), f, es, Entry([lit], db.clauses[i]));
  }

  /** State of the loop over the candidates. */
  ghost predicate Removed(db0: Db, db: Db, lit: Lit, lo: nat, hi: nat, done: seq<nat>) {
    && db.clauses == db0.clauses && db.units == db0.units && db.unsat == db0.unsat
    && |db.garbage| == |db0.garbage| == |db.clauses|
    && forall i: nat :: Live(db, i) <==> Live(db0, i) && !(i in done && Removable(db0, i, lit, lo, hi))
  }

  /** The clauses with the negated literal stay. */
  lemma NegativeStay(db0: Db, db: Db, lit: Lit, lo: nat, hi: nat, done: seq<nat>, k: nat)
    requires WfDb(db0) && Removed(db0, db, lit, lo, hi, done) && k < |db.clauses| && Neg(lit) in db.clauses[k]
    ensures Live(db, k) <==> Live(db0, k)
  {
    if Live(db0, k) {
      assert WfClause(db0.clauses[k]);
      assert Neg(Neg(lit)) == lit;
    }
  }

  lemma RemovedSkip(db0: Db, db: Db, lit: Lit, lo: nat, hi: nat, done: seq<nat>, i: nat)
    requires Removed(db0, db, lit, lo, hi, done) && (Removable(db0, i, lit, lo, hi) ==> i in done)
    ensures Removed(db0, db, lit, lo, hi, done + [i])
  {
    hide Removable;
    assert forall j :: j in done + [i] <==> j in done || j == i;
  }

  lemma RemovedStep(db0: Db, db: Db, lit: Lit, lo: nat, hi: nat, done: seq<nat>, i: nat)
    requires Removed(db0, db, lit, lo, hi, done) && Removable(db0, i, lit, lo, hi) && i < |db.garbage|
    ensures Removed(db0, MarkGarbage(db, i), lit, lo, hi, done + [i])
  {
    hide Removable;
    assert forall j :: j in done + [i] <==> j in done || j == i;
  }

  /** The clauses and the occurrence list in memory that the test reorders. */
  method Unpack(cs: seq<Clause>) returns (r: seq<array<Lit>>)
    ensures Contents(r) == cs && Apart(r) && fresh(set a | a in r)
  {
    r := [];
    for i := 0 to |cs|
      invariant |r| == i && Apart(r) && fresh(set a | a in r) && forall x | 0 <= x < i :: r[x][..] == cs[x]
    {
      var a := new Lit[|cs[i]|](x requires 0 <= x < |cs[i]| => cs[i][x]);
      assert a[..] == cs[i];
      r := r + [a];
    }
  }

  lemma PermutedTransitive(a: seq<Clause>, b: seq<Clause>, c: seq<Clause>)
    requires Permuted(a, b) && Permuted(b, c)
    ensures Permuted(a, c)
  {
  }

  lemma SameElements(a: seq<nat>, b: seq<nat>)
    requires multiset(a) == multiset(b)
    ensures forall x :: x in a <==> x in b
  {
    forall x ensures x in a <==> x in b {
      assert x in multiset(a) <==> x in multiset(b);
    }
  }

  /** The answer over reordered clauses in a reordered list is the answer over the clauses. */
  lemma ReorderedAnswer(c: Clause, lit: Lit, cs: seq<Clause>, ds: seq<Clause>, nos: seq<nat>, os: seq<nat>)
    requires Permuted(cs, ds) && multiset(os) == multiset(nos) && forall k | k in nos :: k < |cs|
    ensures forall x | 0 <= x < |os| :: os[x] < |ds|
    ensures (forall x | 0 <= x < |os| :: os[x] < |ds| && Tautological(c, lit, ds[os[x]])) <==>
            (forall k | k in nos :: k < |cs| && Tautological(c, lit, cs[k]))
  {
    hide Tautological;
    SameElements(os, nos);
    forall k | k in nos ensures Tautological(c, lit, ds[k]) <==> Tautological(c, lit, cs[k]) {
      SameTautological(c, lit, cs[k], ds[k]);
    }
    forall x | 0 <= x < |os| ensures os[x] in nos {
      assert os[x] in os;
    }
  }

  /** The in-place test on the working copies. */
  method TestCandidate(c: Clause, lit: Lit, ghost cs: seq<Clause>, ghost nos: seq<nat>, os: array<nat>, lits: seq<array<Lit>>) returns (res: bool)
    requires Apart(lits) && Permuted(cs, Contents(lits)) && multiset(os[..]) == multiset(nos) && forall k | k in nos :: k < |cs|
    modifies os, lits
    ensures Permuted(cs, Contents(lits)) && multiset(os[..]) == multiset(nos)
    ensures res <==> forall k | k in nos :: k < |cs| && Tautological(c, lit, cs[k])
  {
    hide Tautological, Apart, Permuted;
    ghost var ds := Contents(lits);
    ReorderedAnswer(c, lit, cs, ds, nos, os[..]);
    PermutedSize(cs, ds);
    assert forall x | 0 <= x < os.Length :: os[x] == os[..][x];
    ghost var k;
    res, k := IsBlockedClause(c, lit, os, lits);
    PermutedTransitive(cs, ds, Contents(lits));
  }

  lemma PermutedSize(a: seq<Clause>, b: seq<Clause>)
    requires Permuted(a, b)
    ensures |a| == |b|
  {
  }

  function MarkAll(db: Db, ids: seq<nat>): (r: set<Lit>) {
    set i, l | i in ids && i < |db.clauses| && l in db.clauses[i] :: l
  }

  /** `block_candidates`: a clause without a literal that clashes cannot be blocked. */
  method Candidates(db: Db, lit: Lit, pos: seq<nat>, nos: seq<nat>, lo: nat, hi: nat) returns (r: seq<nat>)
    requires forall i: nat :: i in pos <==> Live(db, i) && lit in db.clauses[i]
    requires forall i: nat :: i in nos <==> Live(db, i) && Neg(lit) in db.clauses[i]
    requires nos != []
    ensures forall i | i in r :: i in pos && i < |db.clauses| && lo <= |db.clauses[i]| <= hi
    ensures forall i: nat | Removable(db, i, lit, lo, hi) :: i in r
  {
    hide Blocked, Within;
    var marks := MarkAll(db, nos);
    r := [];
    for a := 0 to |pos|
      invariant forall i | i in r :: i in pos && i < |db.clauses| && lo <= |db.clauses[i]| <= hi
      invariant forall i: nat | i in pos[..a] && Removable(db, i, lit, lo, hi) :: i in r
    {
      assert pos[..a + 1] == pos[..a] + [pos[a]];
      var c := pos[a];
      assert c in pos;
      assert nos[0] in nos;
      if lo <= |db.clauses[c]| <= hi && exists other | other in db.clauses[c] && other != lit :: Neg(other) in marks {
        r := r + [c];
      } else {
        NotCandidate(db, c, lit, nos[0], marks, lo, hi, nos);
      }
    }
    assert pos[..|pos|] == pos;
    forall i: nat | Removable(db, i, lit, lo, hi) ensures i in pos {
      RemovableLive(db, i, lit, lo, hi);
    }
  }

  lemma RemovableLive(db: Db, i: nat, lit: Lit, lo: nat, hi: nat)
    requires Removable(db, i, lit, lo, hi)
    ensures Live(db, i) && lit in db.clauses[i]
  {
  }

  lemma NotCandidate(db: Db, i: nat, lit: Lit, k: nat, marks: set<Lit>, lo: nat, hi: nat, nos: seq<nat>)
    requires Live(db, k) && Neg(lit) in db.clauses[k] && k in nos && marks == MarkAll(db, nos) && i < |db.clauses|
    requires !(lo <= |db.clauses[i]| <= hi) || forall other | other in db.clauses[i] && other != lit :: Neg(other) !in marks
    ensures !Removable(db, i, lit, lo, hi)
  {
    if lo <= |db.clauses[i]| <= hi {
      forall l | l in db.clauses[k] && l != Neg(lit) ensures Neg(l) !in db.clauses[i] {
        assert l in marks && Neg(Neg(l)) == l && Neg(l) != lit;
      }
      assert !Tautological(db.clauses[i], lit, db.clauses[k]);
    }
  }

  /** `block_impossible`: one clause that clashes with no candidate rules all of them out. */
  method Impossible(db: Db, lit: Lit, candidates: seq<nat>, nos: seq<nat>) returns (res: bool)
    requires forall i | i in nos :: Live(db, i) && Neg(lit) in db.clauses[i]
    requires forall i | i in candidates :: i < |db.clauses|
    ensures res ==> forall i | i in candidates :: !Blocked(db, i, lit)
  {
    var marks := MarkAll(db, candidates);
    for a := 0 to |nos| {
      var d := nos[a];
      assert d in nos;
      if forall other | other in db.clauses[d] && other != Neg(lit) :: Neg(other) !in marks {
        forall i | i in candidates ensures !Blocked(db, i, lit) {
          assert !Tautological(db.clauses[i], lit, db.clauses[d]);
        }
        return true;
      }
    }
    return false;
  }

  /**
   Blocking on a literal, whether it is pure or has one or more negative occurrences: exactly the
   blocked clauses within the size limits move to the stack.
   */
  method BlockLiteral(e: Eliminator, lit: Lit, lo: nat, hi: nat)
    requires e.Valid() && PivotFree(e.db.units, lit.v)
    modifies e`db, e.external`extension, e.external`entries
    ensures e.Valid() && old(e.external.entries) <= e.external.entries
    ensures forall i: nat :: Live(e.db, i) <==> Live(old(e.db), i) && !Removable(old(e.db), i, lit, lo, hi)
    ensures e.db.clauses == old(e.db.clauses) && e.db.units == old(e.db.units) && e.db.unsat == old(e.db.unsat)
  {
    hide OccsOk, Formula, Simplified, WfClause, PivotFree, Blocked, Within, Lists;
    OccsAll(e.db, e.occs, lit, Occ(e.occs, lit));
    OccsAll(e.db, e.occs, Neg(lit), Occ(e.occs, Neg(lit)));
    var pos := Flush(e.db, Occ(e.occs, lit), lit);
    var nos := Flush(e.db, Occ(e.occs, Neg(lit)), Neg(lit));
    var candidates := pos;
    if nos == [] {
      forall i: nat | Removable(e.db, i, lit, lo, hi) ensures i in candidates {
        RemovableLive(e.db, i, lit, lo, hi);
      }
    } else {
      if k :| k in nos && |e.db.clauses[k]| > hi {
        TooLarge(e.db, lit, lo, hi, k);
        return;
      }
      candidates := Candidates(e.db, lit, pos, nos, lo, hi);
      if |candidates| > 1 {
        var impossible := Impossible(e.db, lit, candidates, nos);
        if impossible {
          return;
        }
      }
    }
    RemoveBlocked(e, lit, lo, hi, candidates, nos);
  }

  lemma TooLarge(db: Db, lit: Lit, lo: nat, hi: nat, k: nat)
    requires Live(db, k) && Neg(lit) in db.clauses[k] && |db.clauses[k]| > hi
    ensures forall i: nat :: !Removable(db, i, lit, lo, hi)
  {
  }

  lemma BlockedIff(db: Db, i: nat, lit: Lit, lo: nat, hi: nat, nos: seq<nat>)
    requires Live(db, i) && lit in db.clauses[i] && (nos != [] ==> lo <= |db.clauses[i]| <= hi)
    requires forall k: nat :: k in nos <==> Live(db, k) && Neg(lit) in db.clauses[k]
    requires forall k | k in nos :: k < |db.clauses| && |db.clauses[k]| <= hi
    ensures Removable(db, i, lit, lo, hi) <==> forall k | k in nos :: k < |db.clauses| && Tautological(db.clauses[i], lit, db.clauses[k])
  {
    hide Tautological;
    if Removable(db, i, lit, lo, hi) {
      forall k | k in nos ensures k < |db.clauses| && Tautological(db.clauses[i], lit, db.clauses[k]) {
        assert Live(db, k);
      }
    }
  }

  /** A blocked clause goes to the stack with its blocking literal. */
  method RemoveCandidate(e: Eliminator, ghost db0: Db, lit: Lit, ghost lo: nat, ghost hi: nat, ghost done: seq<nat>, i: nat)
    requires e.Valid() && PivotFree(e.db.units, lit.v) && WfDb(db0)
    requires Removed(db0, e.db, lit, lo, hi, done) && Removable(db0, i, lit, lo, hi) && Live(e.db, i)
    modifies e`db, e.external`extension, e.external`entries
    ensures e.Valid() && old(e.external.entries) <= e.external.entries
    ensures Removed(db0, e.db, lit, lo, hi, done + [i])
  {
    hide OccsOk, Formula, Simplified, WfClause, PivotFree, Removable, Tautological;
    BlockedLater(db0, e.db, lit, lo, hi, done, i);
    BlockedStep(e.original, e.db, e.external.entries, i, lit);
    OccsGarbage(e.db, e.occs, i);
    RemovedStep(db0, e.db, lit, lo, hi, done, i);
    e.external.PushClause(e.db.clauses[i], lit);
    e.db := MarkGarbage(e.db, i);
  }

  /** One candidate: the test in place, and the removal if it is blocked. */
  method TryCandidate(e: Eliminator, ghost db0: Db, lit: Lit, ghost lo: nat, ghost hi: nat, ghost done: seq<nat>, i: nat,
                      ghost nos: seq<nat>, os: array<nat>, lits: seq<array<Lit>>)
    requires e.Valid() && PivotFree(e.db.units, lit.v) && WfDb(db0) && Removed(db0, e.db, lit, lo, hi, done)
    requires Live(db0, i) && lit in db0.clauses[i] && (nos != [] ==> lo <= |db0.clauses[i]| <= hi)
    requires forall k: nat :: k in nos <==> Live(db0, k) && Neg(lit) in db0.clauses[k]
    requires forall k | k in nos :: k < |db0.clauses| && |db0.clauses[k]| <= hi
    requires Apart(lits) && Permuted(db0.clauses, Contents(lits)) && multiset(os[..]) == multiset(nos)
    modifies e`db, e.external`extension, e.external`entries, os, lits
    ensures e.Valid() && old(e.external.entries) <= e.external.entries && Removed(db0, e.db, lit, lo, hi, done + [i]) && e.db.units == db0.units
    ensures Permuted(db0.clauses, Contents(lits)) && multiset(os[..]) == multiset(nos)
  {
    hide OccsOk, Formula, Simplified, WfClause, PivotFree, Removable, Tautological, Permuted, Apart;
    var res := TestCandidate(e.db.clauses[i], lit, db0.clauses, nos, os, lits);
    BlockedIff(db0, i, lit, lo, hi, nos);
    if res && !e.db.garbage[i] {
      RemoveCandidate(e, db0, lit, lo, hi, done, i);
    } else {
      RemovedSkip(db0, e.db, lit, lo, hi, done, i);
    }
  }

  method RemoveBlocked(e: Eliminator, lit: Lit, lo: nat, hi: nat, candidates: seq<nat>, nos: seq<nat>)
    requires e.Valid() && PivotFree(e.db.units, lit.v)
    requires forall i | i in candidates :: Live(e.db, i) && lit in e.db.clauses[i] && (nos != [] ==> lo <= |e.db.clauses[i]| <= hi)
    requires forall k: nat :: k in nos <==> Live(e.db, k) && Neg(lit) in e.db.clauses[k]
    requires forall k | k in nos :: k < |e.db.clauses| && |e.db.clauses[k]| <= hi
    requires forall i: nat | Removable(e.db, i, lit, lo, hi) :: i in candidates
    modifies e`db, e.external`extension, e.external`entries
    ensures e.Valid() && old(e.external.entries) <= e.external.entries
    ensures Removed(old(e.db), e.db, lit, lo, hi, candidates)
  {
    hide OccsOk, Formula, Simplified, WfClause, PivotFree, Removable, Tautological, Permuted, Apart, Removed;
    ghost var db0 := e.db;
    RemovedStart(db0, lit, lo, hi);
    var lits := Unpack(e.db.clauses);
    var os := new nat[|nos|](x requires 0 <= x < |nos| => nos[x]);
    assert os[..] == nos;
    SameSelf(db0.clauses);
    for a := 0 to |candidates|
      invariant e.Valid() && Removed(db0, e.db, lit, lo, hi, candidates[..a]) && e.db.units == db0.units
      invariant Apart(lits) && Permuted(db0.clauses, Contents(lits)) && multiset(os[..]) == multiset(nos)
      invariant old(e.external.entries) <= e.external.entries
    {
      var i := candidates[a];
      assert i in candidates;
      assert candidates[..a + 1] == candidates[..a] + [i];
      TryCandidate(e, db0, lit, lo, hi, candidates[..a], i, nos, os, lits);
    }
    assert candidates[..|candidates|] == candidates;
  }

  lemma RemovedStart(db: Db, lit: Lit, lo: nat, hi: nat)
    requires WfDb(db)
    ensures Removed(db, db, lit, lo, hi, [])
  {
    hide Removable;
  }

  /** Removing other clauses with the literal does not unblock a clause. */
  lemma BlockedLater(db0: Db, db: Db, lit: Lit, lo: nat, hi: nat, done: seq<nat>, i: nat)
    requires WfDb(db0) && Removed(db0, db, lit, lo, hi, done) && Removable(db0, i, lit, lo, hi) && Live(db, i)
    ensures Blocked(db, i, lit)
  {
    hide Tautological, Within;
    forall k: nat | Live(db, k) && Neg(lit) in db.clauses[k] ensures Tautological(db.clauses[i], lit, db.clauses[k]) {
      NegativeStay(db0, db, lit, lo, hi, done, k);
    }
  }
}
