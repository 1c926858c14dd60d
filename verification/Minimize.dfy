/**
 Minimization of a learned clause: a literal goes when the others imply it
 through the reasons. The recursion with its marks and early aborts decides
 exactly that.
 */
module Minimize {
  import opened Cnf
  import opened Trail

  /** The literal is true under the trail. */
  predicate TrueIn(s: State, l: Lit) {
    FalseIn(s, Neg(l))
  }

  lemma ReasonFacts(f: set<Clause>, s: State, l: Lit)
    requires TrailOk(f, s) && TrueIn(s, l)
    ensures Lev(s, l) <= Level(s) && (Lev(s, l) == 0 ==> Entails(f, [l]))
    ensures Reason(s, l).Some? ==> Forces(f, s, l, Reason(s, l).value) && Lev(s, l) > 0
    ensures Reason(s, l).Some? ==> forall o | o in Reason(s, l).value && o != l ::
                                      TrueIn(s, Neg(o)) && Pos(s, Neg(o)) < Pos(s, l) && Lev(s, Neg(o)) <= Lev(s, l)
  {
    assert AtOk(f, s, Pos(s, l));
    assert forall o: Lit :: Neg(Neg(o)) == o && Neg(o).v == o.v;
  }

  /** What the kept literals imply through reasons alone. */
  ghost predicate Covered(f: set<Clause>, s: State, keep: set<Lit>, l: Lit)
    requires TrailOk(f, s) && TrueIn(s, l)
    decreases Pos(s, l)
  {
    || Lev(s, l) == 0
    || l in keep
    || (ReasonFacts(f, s, l);
        Reason(s, l).Some? && forall o | o in Reason(s, l).value && o != l :: Covered(f, s, keep, Neg(o)))
  }

  /** Covered literals hold in every model in which the kept ones hold. */
  lemma {:induction false} CoveredHolds(f: set<Clause>, s: State, keep: set<Lit>, l: Lit, m: Assignment)
    requires TrailOk(f, s) && TrueIn(s, l) && Covered(f, s, keep, l) && Sat(m, f) && AllTrue(m, keep)
    ensures True(m, l)
    decreases Pos(s, l)
  {
    ReasonFacts(f, s, l);
    hide TrailOk;
    if Lev(s, l) == 0 {
      assert SatClause(m, [l]);
    } else if l !in keep {
      var c := Reason(s, l).value;
      var x :| x in c && True(m, x);
      if x != l {
        CoveredHolds(f, s, keep, Neg(x), m);
      }
    }
  }

  /** A covered literal has a kept one on its own level that was assigned no later. */
  lemma {:induction false} CoveredLevel(f: set<Clause>, s: State, keep: set<Lit>, l: Lit)
    requires TrailOk(f, s) && TrueIn(s, l) && Covered(f, s, keep, l) && Lev(s, l) > 0
    ensures exists k | k in keep :: TrueIn(s, k) && Lev(s, k) == Lev(s, l) && Pos(s, k) <= Pos(s, l)
    decreases Pos(s, l)
  {
    if l !in keep {
      ReasonFacts(f, s, l);
      hide TrailOk;
      var o :| o in Reason(s, l).value && o != l && Lev(s, o) == Lev(s, l);
      assert Lev(s, Neg(o)) == Lev(s, o);
      CoveredLevel(f, s, keep, Neg(o));
      var k :| k in keep && TrueIn(s, k) && Lev(s, k) == Lev(s, Neg(o)) && Pos(s, k) <= Pos(s, Neg(o));
    }
  }

  /** Only kept literals that were assigned no later matter. */
  lemma {:induction false} CoveredSame(f: set<Clause>, s: State, keep: set<Lit>, keep': set<Lit>, l: Lit)
    requires TrailOk(f, s) && TrueIn(s, l) && Covered(f, s, keep, l)
    requires forall k | k in keep && TrueIn(s, k) && Pos(s, k) <= Pos(s, l) :: k in keep'
    ensures Covered(f, s, keep', l)
    decreases Pos(s, l)
  {
    if Lev(s, l) > 0 && l !in keep {
      ReasonFacts(f, s, l);
      hide TrailOk;
      forall o | o in Reason(s, l).value && o != l ensures Covered(f, s, keep', Neg(o)) {
        CoveredSame(f, s, keep, keep', Neg(o));
      }
    }
  }

  lemma SamePosition(s: State, k: Lit, l: Lit)
    requires TrueIn(s, k) && TrueIn(s, l) && Pos(s, k) == Pos(s, l)
    ensures k == l
  {
    assert Neg(Neg(k)) == k && Neg(Neg(l)) == l;
  }

  // ----- the early aborts -----

  /** `seen.count < 2`: the clause has at most one literal on the level. */
  predicate AloneOnLevel(s: State, clause: Clause, l: Lit) {
    forall i, j | 0 <= i < j < |clause| :: !(Lev(s, clause[i]) == Lev(s, l) && Lev(s, clause[j]) == Lev(s, l))
  }

  /** `trail <= seen.trail`: no literal of the clause on the level was assigned before. */
  predicate NothingEarlier(s: State, clause: Clause, l: Lit) {
    forall i | 0 <= i < |clause| && Lev(s, clause[i]) == Lev(s, l) :: Pos(s, l) <= Pos(s, clause[i])
  }

  /** The kept literals stem from the clause. */
  ghost predicate FromClause(s: State, clause: Clause, keep: set<Lit>) {
    forall k | k in keep :: Neg(k) in clause && TrueIn(s, k)
  }

  /** No kept literal is on the current level if this one is. */
  ghost predicate OnlyUip(s: State, keep: set<Lit>, l: Lit) {
    Lev(s, l) == Level(s) ==> forall k | k in keep :: Lev(s, k) < Level(s)
  }

  /** The kept literals are on other levels or were assigned later. */
  lemma KeptElsewhere(s: State, clause: Clause, keep: set<Lit>, l: Lit, k: Lit)
    requires TrueIn(s, l) && FromClause(s, clause, keep) && OnlyUip(s, keep, l) && l !in keep && k in keep
    requires Lev(s, l) == Level(s) || NothingEarlier(s, clause, l) || (Neg(l) in clause && AloneOnLevel(s, clause, l))
    ensures Lev(s, k) != Lev(s, l) || Pos(s, k) > Pos(s, l)
  {
    assert Neg(k) in clause && Lev(s, Neg(k)) == Lev(s, k) && Pos(s, Neg(k)) == Pos(s, k);
    var i :| 0 <= i < |clause| && clause[i] == Neg(k);
    assert k != l && Neg(Neg(k)) == k && Neg(Neg(l)) == l;
    if Neg(l) in clause && AloneOnLevel(s, clause, l) {
      var j :| 0 <= j < |clause| && clause[j] == Neg(l);
      assert i != j && Lev(s, Neg(l)) == Lev(s, l);
    }
  }

  /** None of the aborts gives up on a literal that could go. */
  lemma AbortsExact(f: set<Clause>, s: State, clause: Clause, keep: set<Lit>, l: Lit)
    requires TrailOk(f, s) && TrueIn(s, l) && FromClause(s, clause, keep) && OnlyUip(s, keep, l) && l !in keep && Lev(s, l) > 0
    requires Reason(s, l).None? || Lev(s, l) == Level(s) || NothingEarlier(s, clause, l) || (Neg(l) in clause && AloneOnLevel(s, clause, l))
    ensures !Covered(f, s, keep, l)
  {
    hide TrailOk, FromClause, NothingEarlier, AloneOnLevel, TrueIn, OnlyUip;
    if Reason(s, l).Some? {
      forall k | k in keep ensures Lev(s, k) != Lev(s, l) || Pos(s, k) > Pos(s, l) {
        KeptElsewhere(s, clause, keep, l, k);
      }
      hide Covered;
      if Covered(f, s, keep, l) {
        CoveredLevel(f, s, keep, l);
      }
    }
  }

  // ----- the recursion -----

  /** What the marks mean; a mark of failure is exact as long as the depth limit is out of reach. */
  ghost predicate Marks(f: set<Clause>, s: State, limit: nat, keep: set<Lit>, removable: set<Lit>, poison: set<Lit>)
    requires TrailOk(f, s)
  {
    && (forall r | r in removable :: TrueIn(s, r) && Lev(s, r) < Level(s) && Covered(f, s, keep, r))
    && (forall p | p in poison :: TrueIn(s, p) && (|s.trail| <= limit ==> p in keep || !Covered(f, s, keep, p)))
  }

  ghost predicate UpTo(s: State, poison: set<Lit>, n: nat) {
    forall p | p in poison :: Pos(s, p) <= n
  }

  /**
   `minimize_literal`: true only for covered literals, and for all of them unless the trail is
   longer than the depth limit.
   */
  method MinimizeLiteral(ghost f: set<Clause>, s: State, clause: Clause, limit: nat, keep: set<Lit>,
                         lit: Lit, depth: nat, removable0: set<Lit>, poison0: set<Lit>)
      returns (res: bool, removable: set<Lit>, poison: set<Lit>)
    requires TrailOk(f, s) && TrueIn(s, lit) && FromClause(s, clause, keep) && Marks(f, s, limit, keep, removable0, poison0)
    requires OnlyUip(s, keep, lit) && depth + Pos(s, lit) < |s.trail| && (depth == 0 ==> Neg(lit) in clause)
    ensures Marks(f, s, limit, keep, removable, poison)
    ensures forall n: nat | UpTo(s, poison0, n) && Pos(s, lit) <= n :: UpTo(s, poison, n)
    ensures res ==> Covered(f, s, keep, lit)
    ensures |s.trail| <= limit && Covered(f, s, keep, lit) ==> res
    ensures Lev(s, lit) == Level(s) > 0 && lit !in keep ==> !res
    decreases Pos(s, lit)
  {
    hide TrailOk, NothingEarlier, AloneOnLevel, FromClause;
    removable, poison := removable0, poison0;
    if Lev(s, lit) == 0 || lit in removable || lit in keep {
      return true, removable, poison;
    }
    if lit in poison {
      return false, removable, poison;
    }
    if Reason(s, lit).None? || Lev(s, lit) == Level(s) || (depth == 0 && AloneOnLevel(s, clause, lit)) || NothingEarlier(s, clause, lit) {
      AbortsExact(f, s, clause, keep, lit);
      return false, removable, poison;
    }
    if depth > limit {
      return false, removable, poison;
    }
    ReasonFacts(f, s, lit);
    var reason := Reason(s, lit).value;
    res := true;
    var i := 0;
    while res && i < |reason|
      invariant 0 <= i <= |reason| && Marks(f, s, limit, keep, removable, poison)
      invariant forall n: nat | UpTo(s, poison0, n) && Pos(s, lit) <= n :: UpTo(s, poison, n)
      invariant res ==> forall k | 0 <= k < i && reason[k] != lit :: Covered(f, s, keep, Neg(reason[k]))
      invariant !res && |s.trail| <= limit ==> !Covered(f, s, keep, lit)
      decreases |reason| - i
    {
      var other := reason[i];
      assert other in reason;
      if other != lit {
        res, removable, poison := MinimizeLiteral(f, s, clause, limit, keep, Neg(other), depth + 1, removable, poison);
      }
      i := i + 1;
    }
    if res {
      removable := removable + {lit};
    } else {
      poison := poison + {lit};
    }
  }

  // ----- the clause -----

  ghost predicate TrailSorted(s: State, c: Clause) {
    forall i, j | 0 <= i < j < |c| :: Pos(s, c[i]) <= Pos(s, c[j])
  }

  lemma InsertSorted(s: State, r: Clause, k: nat, l: Lit)
    requires TrailSorted(s, r) && k <= |r|
    requires (forall x | 0 <= x < k :: Pos(s, r[x]) <= Pos(s, l)) && (k < |r| ==> Pos(s, l) <= Pos(s, r[k]))
    ensures TrailSorted(s, r[..k] + [l] + r[k..]) && multiset(r[..k] + [l] + r[k..]) == multiset(r) + multiset{l}
  {
    hide TrailSorted, Pos;
    var t := r[..k] + [l] + r[k..];
    assert r == r[..k] + r[k..];
    InsertedSorted(s, r, t, k, l);
  }

  lemma InsertedSorted(s: State, r: Clause, t: Clause, k: nat, l: Lit)
    requires TrailSorted(s, r) && k <= |r| && |t| == |r| + 1
    requires t[..k] == r[..k] && t[k] == l && t[k + 1..] == r[k..]
    requires (forall x | 0 <= x < k :: Pos(s, r[x]) <= Pos(s, l)) && (k < |r| ==> Pos(s, l) <= Pos(s, r[k]))
    ensures TrailSorted(s, t)
  {
    hide Pos;
    forall i, j | 0 <= i < j < |t| ensures Pos(s, t[i]) <= Pos(s, t[j]) {
      var a, b := if i < k then i else i - 1, if j < k then j else j - 1;
      assert i < k ==> t[i] == t[..k][i] == r[..k][i];
      assert j < k ==> t[j] == t[..k][j] == r[..k][j];
      assert i > k ==> t[i] == t[k + 1..][i - k - 1] == r[k..][i - k - 1];
      assert j > k ==> t[j] == t[k + 1..][j - k - 1] == r[k..][j - k - 1];
      assert i == k && k < b ==> Pos(s, r[k]) <= Pos(s, r[b]);
    }
  }

  method Insert(s: State, r: Clause, l: Lit) returns (t: Clause)
    requires TrailSorted(s, r)
    ensures TrailSorted(s, t) && multiset(t) == multiset(r) + multiset{l}
  {
    hide TrailSorted, Pos;
    var k := 0;
    while k < |r| && Pos(s, r[k]) <= Pos(s, l)
      invariant 0 <= k <= |r| && forall x | 0 <= x < k :: Pos(s, r[x]) <= Pos(s, l)
    {
      k := k + 1;
    }
    InsertSorted(s, r, k, l);
    t := r[..k] + [l] + r[k..];
  }

  /** `minimize_sort_clause`. */
  method SortByTrail(s: State, c: Clause) returns (r: Clause)
    ensures multiset(r) == multiset(c) && TrailSorted(s, r)
  {
    hide TrailSorted;
    r := [];
    SortedEmpty(s);
    for i := 0 to |c|
      invariant multiset(r) == multiset(c[..i]) && TrailSorted(s, r)
    {
      assert c[..i + 1] == c[..i] + [c[i]];
      r := Insert(s, r, c[i]);
    }
    assert c[..|c|] == c;
  }

  lemma SortedEmpty(s: State)
    ensures TrailSorted(s, [])
  {
  }

  ghost function Negations(c: Clause): (r: set<Lit>)
    ensures forall k: Lit :: k in r <==> Neg(k) in c
  {
    assert forall k: Lit :: Neg(Neg(k)) == k;
    set l | l in c :: Neg(l)
  }

  /** The clause is false, and has at most one literal on the current level. */
  ghost predicate Learnt(s: State, c: Clause) {
    && Distinct(c) && (forall l | l in c :: FalseIn(s, l))
    && forall k, l | k in c && l in c && k != l :: Lev(s, k) < Level(s) || Lev(s, l) < Level(s)
  }

  /** Keeping a literal that was assigned after all poisoned ones leaves the marks right. */
  lemma MarksKeep(f: set<Clause>, s: State, limit: nat, keep: set<Lit>, removable: set<Lit>, poison: set<Lit>, x: Lit)
    requires TrailOk(f, s) && Marks(f, s, limit, keep, removable, poison) && TrueIn(s, x) && UpTo(s, poison, Pos(s, x))
    ensures Marks(f, s, limit, keep + {x}, removable, poison)
  {
    hide TrailOk, Covered;
    forall r | r in removable ensures Covered(f, s, keep + {x}, r) {
      CoveredSame(f, s, keep, keep + {x}, r);
    }
    forall p | p in poison && |s.trail| <= limit ensures p in keep + {x} || !Covered(f, s, keep + {x}, p) {
      if p !in keep && p != x {
        LaterKept(f, s, keep, x, p);
      }
    }
  }

  /** A literal kept later does not cover what was assigned before it. */
  lemma LaterKept(f: set<Clause>, s: State, keep: set<Lit>, x: Lit, l: Lit)
    requires TrailOk(f, s) && TrueIn(s, x) && TrueIn(s, l) && Pos(s, l) <= Pos(s, x) && l != x
    ensures Covered(f, s, keep + {x}, l) ==> Covered(f, s, keep, l)
  {
    hide TrailOk, Covered;
    assert Pos(s, l) < Pos(s, x) by {
      if Pos(s, l) == Pos(s, x) {
        SamePosition(s, l, x);
      }
    }
    if Covered(f, s, keep + {x}, l) {
      CoveredSame(f, s, keep + {x}, keep, l);
    }
  }

  /** Every literal so far is kept or covered by the kept ones, and no kept one by the others. */
  ghost predicate Minimized(f: set<Clause>, s: State, limit: nat, lits: seq<Lit>, r: Clause)
    requires TrailOk(f, s)
  {
    && Distinct(r) && (forall l | l in lits :: FalseIn(s, l)) && (forall l | l in r :: l in lits)
    && (forall l | l in lits :: TrueIn(s, Neg(l)) && (l in r || Covered(f, s, Negations(r), Neg(l))))
    && (|s.trail| <= limit ==> forall l | l in r :: TrueIn(s, Neg(l)) && !Covered(f, s, Negations(r) - {Neg(l)}, Neg(l)))
  }

  lemma MinimizedDrop(f: set<Clause>, s: State, limit: nat, lits: seq<Lit>, r: Clause, l: Lit)
    requires TrailOk(f, s) && Minimized(f, s, limit, lits, r) && FalseIn(s, l) && TrueIn(s, Neg(l))
    requires Covered(f, s, Negations(r), Neg(l))
    ensures Minimized(f, s, limit, lits + [l], r)
  {
    hide TrailOk, Covered;
  }

  lemma MinimizedKeep(f: set<Clause>, s: State, limit: nat, lits: seq<Lit>, r: Clause, l: Lit)
    requires TrailOk(f, s) && Minimized(f, s, limit, lits, r) && FalseIn(s, l) && TrueIn(s, Neg(l)) && l !in lits
    requires |s.trail| <= limit ==> !Covered(f, s, Negations(r), Neg(l))
    requires forall k | k in lits :: Pos(s, Neg(k)) <= Pos(s, Neg(l))
    ensures Minimized(f, s, limit, lits + [l], r + [l]) && Negations(r + [l]) == Negations(r) + {Neg(l)}
  {
    hide TrailOk, Covered;
    var keep, x := Negations(r), Neg(l);
    assert Neg(x) == l && Negations(r + [l]) == keep + {x} && keep + {x} - {x} == keep;
    forall k | k in lits && k !in r ensures Covered(f, s, keep + {x}, Neg(k)) {
      CoveredSame(f, s, keep, keep + {x}, Neg(k));
    }
    forall k | k in r && |s.trail| <= limit ensures TrueIn(s, Neg(k)) && !Covered(f, s, keep + {x} - {Neg(k)}, Neg(k)) {
      assert Neg(Neg(k)) == k && keep + {x} - {Neg(k)} == keep - {Neg(k)} + {x};
      LaterKept(f, s, keep - {Neg(k)}, x, Neg(k));
    }
  }

  /** What the kept literals cover can leave the clause. */
  lemma MinimizedEntails(f: set<Clause>, s: State, limit: nat, lits: seq<Lit>, r: Clause)
    requires TrailOk(f, s) && Minimized(f, s, limit, lits, r) && Entails(f, lits)
    ensures Entails(f, r)
  {
    hide TrailOk, Covered;
    forall m: Assignment | Sat(m, f) ensures SatClause(m, r) {
      var l :| l in lits && True(m, l);
      if l !in r && !SatClause(m, r) {
        assert AllTrue(m, Negations(r));
        CoveredHolds(f, s, Negations(r), Neg(l), m);
      }
    }
  }

  lemma SortedLearnt(s: State, clause: Clause, sorted: Clause)
    requires Learnt(s, clause) && multiset(sorted) == multiset(clause)
    ensures Learnt(s, sorted) && forall l :: l in sorted <==> l in clause
  {
    forall l ensures l in sorted <==> l in clause {
      assert l in multiset(sorted) <==> l in multiset(clause);
    }
    DistinctPermutation(clause, sorted);
  }

  lemma MinimizeStart(f: set<Clause>, s: State, limit: nat)
    requires TrailOk(f, s)
    ensures Marks(f, s, limit, {}, {}, {}) && Minimized(f, s, limit, [], []) && forall n: nat :: UpTo(s, {}, n)
    ensures Negations([]) == {}
  {
  }

  lemma NextLiteral(f: set<Clause>, s: State, limit: nat, clause: Clause, sorted: Clause, i: nat, r: Clause)
    requires TrailOk(f, s) && Learnt(s, sorted) && TrailSorted(s, sorted) && i < |sorted| && Minimized(f, s, limit, sorted[..i], r)
    requires forall l :: l in sorted <==> l in clause
    ensures var l := sorted[i];
            && FalseIn(s, l) && TrueIn(s, Neg(l)) && Neg(Neg(l)) in clause && Pos(s, Neg(l)) < |s.trail|
            && l !in sorted[..i] && Neg(l) !in Negations(r) && Lev(s, Neg(l)) == Lev(s, l)
            && FromClause(s, clause, Negations(r)) && OnlyUip(s, Negations(r), Neg(l))
            && forall k | k in sorted[..i] :: Pos(s, Neg(k)) <= Pos(s, Neg(l))
  {
    hide TrailOk, Covered;
    var l := sorted[i];
    assert forall k: Lit :: Neg(Neg(k)) == k && Neg(k).v == k.v;
    assert l !in sorted[..i] && l !in r;
    forall k | k in Negations(r) ensures Neg(k) in sorted && Neg(k) != l {
      assert Neg(k) in r;
      assert Neg(k) in sorted[..i];
    }
  }

  lemma SortedAfter(s: State, sorted: Clause, i: nat)
    requires TrailSorted(s, sorted) && i < |sorted|
    ensures forall k | i <= k < |sorted| :: Pos(s, Neg(sorted[i])) <= Pos(s, Neg(sorted[k]))
  {
    assert forall l: Lit :: Pos(s, Neg(l)) == Pos(s, l);
  }

  lemma MinimizedSame(f: set<Clause>, s: State, limit: nat, a: seq<Lit>, b: seq<Lit>, r: Clause)
    requires TrailOk(f, s) && Minimized(f, s, limit, a, r) && forall l :: l in a <==> l in b
    ensures Minimized(f, s, limit, b, r)
  {
    hide TrailOk, Covered;
  }

  /**
   `minimize_clause`: what is left implies what went, and unless the trail is longer than the depth
   limit no literal that is left is implied by the others through the reasons.
   */
  method MinimizeClause(ghost f: set<Clause>, s: State, clause: Clause, limit: nat) returns (r: Clause)
    requires TrailOk(f, s) && Learnt(s, clause)
    ensures Minimized(f, s, limit, clause, r)
    ensures forall l | l in clause && Lev(s, l) == Level(s) > 0 :: l in r
    ensures Entails(f, clause) ==> Entails(f, r)
  {
    hide TrailOk, Covered, Marks, Minimized, Entails, TrailSorted, UpTo;
    var sorted := SortByTrail(s, clause);
    SortedLearnt(s, clause, sorted);
    r := [];
    var keep: set<Lit>, removable: set<Lit>, poison: set<Lit> := {}, {}, {};
    MinimizeStart(f, s, limit);
    for i := 0 to |sorted|
      invariant keep == Negations(r) && Marks(f, s, limit, keep, removable, poison) && Minimized(f, s, limit, sorted[..i], r)
      invariant forall k | i <= k < |sorted| :: UpTo(s, poison, Pos(s, Neg(sorted[k])))
      invariant forall k | 0 <= k < i && Lev(s, sorted[k]) == Level(s) > 0 :: sorted[k] in r
    {
      var l := sorted[i];
      assert sorted[..i + 1] == sorted[..i] + [l];
      NextLiteral(f, s, limit, clause, sorted, i, r);
      var res: bool;
      res, removable, poison := MinimizeLiteral(f, s, clause, limit, keep, Neg(l), 0, removable, poison);
      SortedAfter(s, sorted, i);
      if res {
        MinimizedDrop(f, s, limit, sorted[..i], r, l);
      } else {
        MinimizedKeep(f, s, limit, sorted[..i], r, l);
        MarksKeep(f, s, limit, keep, removable, poison, Neg(l));
        r := r + [l];
        keep := keep + {Neg(l)};
      }
    }
    assert sorted[..|sorted|] == sorted;
    MinimizedSame(f, s, limit, sorted, clause, r);
    if Entails(f, clause) {
      MinimizedEntails(f, s, limit, clause, r);
    }
  }
}
