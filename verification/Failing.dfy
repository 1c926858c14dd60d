/**
 Failed assumptions: when an assumption is falsified, or all literals of the
 constraint are, a search back through the reasons finds the assumptions to
 blame. They form a core.
 */
module Failing {
  import opened Cnf
  import opened Trail
  import opened Dominators

  /** The literal is true, and what made it true was looked at. */
  ghost predicate Explained(s: State, seen: set<Lit>, failed: set<Lit>, l: Lit) {
    && l in s.trail
    && (Lev(s, l) > 0 ==>
         if Reason(s, l).Some? then forall o | o in Reason(s, l).value && o != l :: Neg(o) in seen
         else l in failed)
  }

  ghost predicate Trace(s: State, start: seq<Lit>, l: Lit, p: seq<Lit>) {
    p != [] && p[0] in start && p[|p| - 1] == l && Linked(s, p)
  }

  /** Reasons lead from a literal of the start back to this one. */
  ghost predicate Traced(s: State, start: seq<Lit>, l: Lit) {
    exists p: seq<Lit> :: Trace(s, start, l, p)
  }

  /** A decision to which reasons lead back. */
  ghost predicate Blamed(s: State, start: seq<Lit>, l: Lit) {
    Traced(s, start, l) && Lev(s, l) > 0 && Reason(s, l).None?
  }

  lemma TracedStart(s: State, start: seq<Lit>)
    ensures forall l | l in start :: Traced(s, start, l)
  {
    forall l | l in start ensures Traced(s, start, l) {
      assert Trace(s, start, l, [l]);
    }
  }

  lemma TracedNext(s: State, start: seq<Lit>, l: Lit, x: Lit)
    requires Traced(s, start, l) && Link(s, l, x)
    ensures Traced(s, start, x)
  {
    var p :| Trace(s, start, l, p);
    var q := p + [x];
    hide Link;
    forall i | 0 <= i < |q| - 1 ensures Link(s, q[i], q[i + 1]) {
      assert i < |p| - 1 ==> q[i] == p[i] && q[i + 1] == p[i + 1];
    }
    assert Trace(s, start, x, q);
  }

  /** Along a trace everything was looked at. */
  lemma {:induction false} TraceSeen(f: set<Clause>, s: State, seen: set<Lit>, failed: set<Lit>, start: seq<Lit>, l: Lit, p: seq<Lit>, i: nat)
    requires TrailOk(f, s) && Trace(s, start, l, p) && i < |p| && (forall x | x in start :: x in seen)
    requires forall x | x in seen :: Explained(s, seen, failed, x)
    ensures p[i] in seen
  {
    if i > 0 {
      TraceSeen(f, s, seen, failed, start, l, p, i - 1);
      var x, y := p[i - 1], p[i];
      assert Link(s, x, y) && Explained(s, seen, failed, x);
      var k :| 0 <= k < |s.trail| && s.trail[k] == x;
      assert AtOk(f, s, k);
      assert Neg(Neg(y)) == y;
    }
  }

  /** The decisions that were found are exactly those that are to blame. */
  lemma BlamedExact(f: set<Clause>, s: State, seen: set<Lit>, failed: set<Lit>, start: seq<Lit>)
    requires TrailOk(f, s) && (forall x | x in start :: x in seen) && forall x | x in seen :: Explained(s, seen, failed, x)
    requires forall x | x in failed :: Blamed(s, start, x)
    ensures forall x :: x in failed <==> Blamed(s, start, x)
  {
    forall x | Blamed(s, start, x) ensures x in failed {
      var p :| Trace(s, start, x, p);
      TraceSeen(f, s, seen, failed, start, x, p, |p| - 1);
      assert Explained(s, seen, failed, x);
    }
  }

  /** Everything that was looked at holds in every model in which the failed literals hold. */
  lemma ExplainedTrue(f: set<Clause>, s: State, seen: set<Lit>, failed: set<Lit>, l: Lit, m: Assignment)
    requires TrailOk(f, s) && Sat(m, f) && AllTrue(m, failed)
    requires (forall x | x in seen :: Explained(s, seen, failed, x)) && l in seen
    ensures True(m, l)
    decreases Pos(s, l)
  {
    var i :| 0 <= i < |s.trail| && s.trail[i] == l;
    assert AtOk(f, s, i);
    assert Explained(s, seen, failed, l);
    if Lev(s, l) == 0 {
      assert SatClause(m, [l]);
    } else if Reason(s, l).Some? {
      var c := Reason(s, l).value;
      assert Forces(f, s, l, c);
      var x :| x in c && True(m, x);
      if x != l {
        assert Neg(x) in seen && Pos(s, Neg(x)) < Pos(s, l);
        ExplainedTrue(f, s, seen, failed, Neg(x), m);
      }
    }
  }

  lemma FalseTrail(s: State, o: Lit)
    requires FalseIn(s, o)
    ensures Neg(o) in s.trail
  {
  }

  /**
   The breadth-first search of `failing` from literals that are true: the decisions it reaches are
   assumptions, and with the formula they imply the literals it started from.
   */
  method Search(ghost f: set<Clause>, s: State, assumptions: seq<Lit>, start: seq<Lit>) returns (failed: set<Lit>)
    requires TrailOk(f, s) && AssumedOk(s, assumptions) && Level(s) <= |assumptions| && forall l | l in start :: l in s.trail
    ensures failed <= ToSet(assumptions)
    ensures forall m: Assignment, l | Sat(m, f) && AllTrue(m, failed) && l in start :: True(m, l)
    ensures forall x :: x in failed <==> Blamed(s, start, x)
  {
    hide TrailOk, AssumedOk, Traced;
    TracedStart(s, start);
    var analyzed := start;
    var next := 0;
    failed := {};
    while next < |analyzed|
      invariant 0 <= next <= |analyzed| && start <= analyzed && failed <= ToSet(assumptions)
      invariant forall l | l in analyzed :: l in s.trail && Traced(s, start, l)
      invariant forall x | x in failed :: Blamed(s, start, x)
      invariant forall l | l in analyzed[..next] :: Explained(s, ToSet(analyzed), failed, l)
      invariant |start| <= |analyzed| && Distinct(analyzed[|start|..]) && next <= |analyzed|
      decreases |s.trail| + |start| - next
    {
      BoundedStack(f, s, analyzed, |start|);
      var l := analyzed[next];
      assert l in analyzed;
      ghost var before := analyzed;
      ghost var failed0 := failed;
      if Lev(s, l) > 0 {
        if Reason(s, l).Some? {
          analyzed := PushReason(f, s, l, analyzed, |start|);
          forall x | x in analyzed ensures Traced(s, start, x) {
            if x !in before {
              TracedNext(s, start, l, x);
            }
          }
        } else {
          DecisionAssumed(f, s, assumptions, l);
          failed := failed + {l};
        }
      }
      assert analyzed[..next + 1] == before[..next] + [l];
      forall x | x in analyzed[..next + 1] ensures Explained(s, ToSet(analyzed), failed, x) {
        if x in before[..next] {
          ExplainedMore(s, ToSet(before), ToSet(analyzed), failed0, failed, x);
        }
      }
      next := next + 1;
    }
    assert analyzed[..next] == analyzed;
    forall x | x in ToSet(analyzed) ensures Explained(s, ToSet(analyzed), failed, x) {
      assert x in analyzed[..next];
    }
    assert forall x | x in start :: x in analyzed;
    BlamedExact(f, s, ToSet(analyzed), failed, start);
    forall m: Assignment, l | Sat(m, f) && AllTrue(m, failed) && l in start ensures True(m, l) {
      assert l in ToSet(analyzed);
      ExplainedTrue(f, s, ToSet(analyzed), failed, l, m);
    }
  }

  lemma ExplainedMore(s: State, seen: set<Lit>, seen': set<Lit>, failed: set<Lit>, failed': set<Lit>, l: Lit)
    requires Explained(s, seen, failed, l) && seen <= seen' && failed <= failed'
    ensures Explained(s, seen', failed', l)
  {
  }

  /** All decisions up to here are assumptions. */
  lemma DecisionAssumed(f: set<Clause>, s: State, assumptions: seq<Lit>, l: Lit)
    requires TrailOk(f, s) && AssumedOk(s, assumptions) && Level(s) <= |assumptions|
    requires l in s.trail && Lev(s, l) > 0 && Reason(s, l).None?
    ensures l in assumptions
  {
    var i :| 0 <= i < |s.trail| && s.trail[i] == l;
    assert AtOk(f, s, i);
  }

  /** The stack never holds more than the trail beyond the literals it started with. */
  lemma BoundedStack(f: set<Clause>, s: State, analyzed: seq<Lit>, n: nat)
    requires n <= |analyzed| && Distinct(analyzed[n..]) && forall l | l in analyzed :: l in s.trail
    ensures |analyzed| <= |s.trail| + n
  {
    var rest := analyzed[n..];
    assert forall l | l in rest :: l in analyzed;
    DistinctBound(rest, s.trail);
  }

  lemma {:induction false} DistinctBound(a: seq<Lit>, b: seq<Lit>)
    requires Distinct(a) && forall l | l in a :: l in b
    ensures |a| <= |b|
  {
    if a != [] {
      var n := |a| - 1;
      assert a[n] in b;
      var i :| 0 <= i < |b| && b[i] == a[n];
      var b' := RemoveAt(b, i);
      forall l | l in a[..n] ensures l in b' {
        assert l in a && l != a[n];
        var j :| 0 <= j < |b| && b[j] == l;
        assert b' == b[..i] + b[i + 1..];
        assert l == if j < i then b'[j] else b'[j - 1];
      }
      DistinctBound(a[..n], b');
    }
  }

  /** The literals of a reason that were not seen yet. */
  method PushReason(ghost f: set<Clause>, s: State, l: Lit, analyzed: seq<Lit>, ghost n: nat) returns (r: seq<Lit>)
    requires TrailOk(f, s) && l in s.trail && Reason(s, l).Some? && l in analyzed
    requires n <= |analyzed| && Distinct(analyzed[n..]) && forall x | x in analyzed :: x in s.trail
    ensures analyzed <= r && Distinct(r[n..]) && (forall x | x in r :: x in s.trail)
    ensures forall o | o in Reason(s, l).value && o != l :: Neg(o) in r
    ensures forall x | x in r :: x in analyzed || Link(s, l, x)
  {
    var c := Reason(s, l).value;
    ReasonForces(f, s, l);
    hide TrailOk, Entails;
    r := analyzed;
    for k := 0 to |c|
      invariant analyzed <= r && Distinct(r[n..]) && forall x | x in r :: x in s.trail
      invariant forall x | 0 <= x < k && c[x] != l :: Neg(c[x]) in r
      invariant forall x | x in r :: x in analyzed || Link(s, l, x)
    {
      var o := c[k];
      if o != l {
        assert Neg(Neg(o)) == o;
        FalseTrail(s, o);
        if Neg(o) !in r {
          assert (r + [Neg(o)])[n..] == r[n..] + [Neg(o)];
          r := r + [Neg(o)];
        }
      }
    }
  }

  lemma ReasonForces(f: set<Clause>, s: State, l: Lit)
    requires TrailOk(f, s) && l in s.trail && Reason(s, l).Some?
    ensures Forces(f, s, l, Reason(s, l).value)
  {
    var i :| 0 <= i < |s.trail| && s.trail[i] == l;
    assert AtOk(f, s, i);
  }

  datatype Culprit = RootFalse(l: Lit) | Clashing(l: Lit) | Implied(l: Lit)

  /** A root-level unit; a clash, if there is no unit before it; else the lowest falsified assumption. */
  ghost predicate CulpritOk(s: State, assumptions: seq<Lit>, r: Culprit) {
    match r
    case RootFalse(l) => Lev(s, l) == 0
    case Clashing(l) => Lev(s, l) > 0 && Reason(s, l).None?
    case Implied(l) =>
      Lev(s, l) > 0 && Reason(s, l).Some? && forall x | x in assumptions && Neg(x) in s.trail :: Reason(s, x).Some? && Lev(s, l) <= Lev(s, x)
  }

  /** The first loop of `failing`: a root-level unit, else a clash, else the lowest falsified assumption. */
  method FindFailed(s: State, vals: set<Lit>, assumptions: seq<Lit>) returns (r: Culprit)
    requires vals == ToSet(s.trail) && exists l | l in assumptions :: Neg(l) in s.trail
    ensures r.l in assumptions && Neg(r.l) in s.trail
    ensures CulpritOk(s, assumptions, r)
  {
    var clashing, first: Option<Lit> := None, None;
    for k := 0 to |assumptions|
      invariant clashing.Some? ==> clashing.value in assumptions && Neg(clashing.value) in vals && Lev(s, clashing.value) > 0 && Reason(s, clashing.value).None?
      invariant first.Some? ==> first.value in assumptions && Neg(first.value) in vals && Lev(s, first.value) > 0 && Reason(s, first.value).Some?
      invariant clashing.None? ==> forall x | 0 <= x < k && Neg(assumptions[x]) in vals :: Reason(s, assumptions[x]).Some? && first.Some? && Lev(s, first.value) <= Lev(s, assumptions[x])
    {
      var lit := assumptions[k];
      if Neg(lit) in vals {
        if Lev(s, lit) == 0 {
          return RootFalse(lit);
        }
        if clashing.None? {
          if Reason(s, lit).None? {
            clashing := Some(lit);
          } else if first.None? || Lev(s, lit) < Lev(s, first.value) {
            first := Some(lit);
          }
        }
      }
    }
    if clashing.Some? {
      return Clashing(clashing.value);
    }
    ghost var l :| l in assumptions && Neg(l) in s.trail;
    ghost var x :| 0 <= x < |assumptions| && assumptions[x] == l;
    assert Neg(assumptions[x]) in vals;
    return Implied(first.value);
  }

  /** Which assumptions fail, once the culprit is found. */
  ghost predicate Fails(s: State, culprit: Culprit, l: Lit) {
    l == culprit.l
    || match culprit
       case RootFalse(_) => false
       case Clashing(c) => l == Neg(c)
       case Implied(c) => Blamed(s, [Neg(c)], l)
  }

  /**
   `failing` after a falsified assumption: the failed assumptions are a core. They are the culprit,
   and the assumption it clashes with or the decisions to which its reasons lead back.
   */
  method FailingAssumptions(t: Internal) returns (failed: set<Lit>, ghost culprit: Culprit)
    requires t.Valid() && Level(t.S()) < |t.assumptions| && Neg(t.assumptions[Level(t.S())]) in t.trail
    ensures failed <= ToSet(t.assumptions) && Unsat(t.f, failed)
    ensures culprit.l in t.assumptions && Neg(culprit.l) in t.trail && CulpritOk(t.S(), t.assumptions, culprit)
    ensures forall l :: l in failed <==> Fails(t.S(), culprit, l)
  {
    hide TrailOk, AssumedOk, Blamed;
    ghost var l0 := t.assumptions[Level(t.S())];
    assert l0 in t.assumptions;
    var found := FindFailed(t.S(), t.vals, t.assumptions);
    culprit := found;
    var l := found.l;
    match found {
      case RootFalse(_) =>
        failed := {l};
        RootUnsat(t.f, t.S(), l);
      case Clashing(_) =>
        failed := {l, Neg(l)};
        ClashAssumed(t.f, t.S(), t.assumptions, l);
        ClashUnsat(t.f, l);
      case Implied(_) =>
        var more := Search(t.f, t.S(), t.assumptions, [Neg(l)]);
        failed := more + {l};
        ImpliedUnsat(t.f, more, l);
    }
  }

  lemma RootUnsat(f: set<Clause>, s: State, l: Lit)
    requires TrailOk(f, s) && Neg(l) in s.trail && Lev(s, l) == 0
    ensures Unsat(f, {l})
  {
    var i :| 0 <= i < |s.trail| && s.trail[i] == Neg(l);
    assert AtOk(f, s, i);
    forall m: Assignment ensures !(Sat(m, f) && AllTrue(m, {l})) {
      assert Sat(m, f) ==> SatClause(m, [Neg(l)]);
      assert l in {l};
    }
  }

  lemma ClashAssumed(f: set<Clause>, s: State, assumptions: seq<Lit>, l: Lit)
    requires TrailOk(f, s) && AssumedOk(s, assumptions) && Level(s) <= |assumptions|
    requires Neg(l) in s.trail && Lev(s, l) > 0 && Reason(s, l).None?
    ensures Neg(l) in assumptions
  {
    DecisionAssumed(f, s, assumptions, Neg(l));
  }

  lemma ClashUnsat(f: set<Clause>, l: Lit)
    ensures Unsat(f, {l, Neg(l)})
  {
    forall m: Assignment ensures !AllTrue(m, {l, Neg(l)}) {
      assert l in {l, Neg(l)} && Neg(l) in {l, Neg(l)};
    }
  }

  lemma ImpliedUnsat(f: set<Clause>, more: set<Lit>, l: Lit)
    requires forall m: Assignment, x | Sat(m, f) && AllTrue(m, more) && x in [Neg(l)] :: True(m, x)
    ensures Unsat(f, more + {l})
  {
    forall m: Assignment ensures !(Sat(m, f) && AllTrue(m, more + {l})) {
      assert Neg(l) in [Neg(l)];
      assert l in more + {l};
      assert AllTrue(m, more + {l}) ==> AllTrue(m, more);
    }
  }

  /** `failing` after the constraint failed: with the constraint the failed assumptions are a core. */
  method FailingConstraint(t: Internal) returns (failed: set<Lit>)
    requires t.Valid() && Level(t.S()) == |t.assumptions| && forall l | l in t.constraint :: Neg(l) in t.trail
    ensures failed <= ToSet(t.assumptions) && Unsat(t.f + {t.constraint}, failed)
    ensures forall l :: l in failed <==> Blamed(t.S(), Negated(t.constraint), l)
  {
    hide TrailOk, AssumedOk;
    var start := Negated(t.constraint);
    forall l | l in start ensures l in t.trail {
      var i :| 0 <= i < |start| && start[i] == l;
    }
    failed := Search(t.f, t.S(), t.assumptions, start);
    ConstraintUnsat(t.f, t.constraint, start, failed);
  }

  lemma ConstraintUnsat(f: set<Clause>, c: Clause, start: seq<Lit>, failed: set<Lit>)
    requires start == Negated(c)
    requires forall m: Assignment, l | Sat(m, f) && AllTrue(m, failed) && l in start :: True(m, l)
    ensures Unsat(f + {c}, failed)
  {
    assert c in f + {c};
    forall m: Assignment ensures !(Sat(m, f + {c}) && AllTrue(m, failed)) {
      if Sat(m, f) && AllTrue(m, failed) {
        forall l | l in c ensures !True(m, l) {
          var i :| 0 <= i < |c| && c[i] == l;
          assert start[i] in start;
        }
      }
    }
  }
}
