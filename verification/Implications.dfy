/**
 The binary implication graph: reachability, its skew symmetry, and strongly
 connected components.
 */
module Implications {
  import opened Cnf

  /** The implied literals of every active literal; inactive ones may occur in the lists. */
  type Graph = map<Lit, seq<Lit>>

  predicate Edge(g: Graph, u: Lit, v: Lit) {
    u in g && v in g && v in g[u]
  }

  ghost predicate IsPath(g: Graph, p: seq<Lit>) {
    && |p| > 0 && p[0] in g
    && forall i | 0 <= i < |p| - 1 :: Edge(g, p[i], p[i + 1])
  }

  ghost predicate PathFrom(g: Graph, u: Lit, v: Lit, p: seq<Lit>) {
    IsPath(g, p) && p[0] == u && p[|p| - 1] == v
  }

  ghost predicate Reach(g: Graph, u: Lit, v: Lit) {
    exists p: seq<Lit> :: PathFrom(g, u, v, p)
  }

  ghost predicate Mutual(g: Graph, u: Lit, v: Lit) {
    Reach(g, u, v) && Reach(g, v, u)
  }

  lemma ReachSelf(g: Graph, u: Lit)
    requires u in g
    ensures Reach(g, u, u)
  {
    assert PathFrom(g, u, u, [u]);
  }

  lemma ReachEdge(g: Graph, u: Lit, v: Lit)
    requires Edge(g, u, v)
    ensures Reach(g, u, v)
  {
    assert PathFrom(g, u, v, [u, v]);
  }

  lemma ReachTrans(g: Graph, u: Lit, v: Lit, w: Lit)
    requires Reach(g, u, v) && Reach(g, v, w)
    ensures Reach(g, u, w)
  {
    var p :| PathFrom(g, u, v, p);
    var q :| PathFrom(g, v, w, q);
    var r := p + q[1..];
    forall i | 0 <= i < |r| - 1 ensures Edge(g, r[i], r[i + 1]) {
      if i < |p| - 1 {
        assert r[i] == p[i] && r[i + 1] == p[i + 1];
      } else {
        assert r[i] == q[i - (|p| - 1)] && r[i + 1] == q[i - (|p| - 1) + 1];
      }
    }
    assert PathFrom(g, u, w, r);
  }

  lemma ReachIn(g: Graph, u: Lit, v: Lit)
    requires Reach(g, u, v)
    ensures u in g && v in g
  {
    var p :| PathFrom(g, u, v, p);
    if |p| > 1 {
      assert Edge(g, p[|p| - 2], p[|p| - 1]);
    }
  }

  ghost predicate ClosedSet(g: Graph, s: set<Lit>) {
    forall u, v | u in s && Edge(g, u, v) :: v in s
  }

  /** A closed set cannot be left. */
  lemma ReachClosed(g: Graph, s: set<Lit>, u: Lit, v: Lit)
    requires ClosedSet(g, s) && u in s && Reach(g, u, v)
    ensures v in s
  {
    var p :| PathFrom(g, u, v, p);
    PathClosed(g, s, p, |p| - 1);
  }

  lemma {:induction false} PathClosed(g: Graph, s: set<Lit>, p: seq<Lit>, i: nat)
    requires ClosedSet(g, s) && IsPath(g, p) && p[0] in s && i < |p|
    ensures p[i] in s
  {
    if i > 0 {
      PathClosed(g, s, p, i - 1);
      assert Edge(g, p[i - 1], p[i]);
    }
  }

  // ----- skew symmetry -----

  ghost predicate Skew(g: Graph) {
    && (forall l | l in g :: Neg(l) in g)
    && forall u, v | Edge(g, u, v) :: Edge(g, Neg(v), Neg(u))
  }

  /** Contraposition of a chain of implications. */
  lemma {:induction false} ReachSkew(g: Graph, u: Lit, v: Lit)
    requires Skew(g) && Reach(g, u, v)
    ensures Reach(g, Neg(v), Neg(u))
  {
    var p :| PathFrom(g, u, v, p);
    var n := |p|;
    var q := seq(n, i requires 0 <= i < n => Neg(p[n - 1 - i]));
    forall i | 0 <= i < n - 1 ensures Edge(g, q[i], q[i + 1]) {
      assert Edge(g, p[n - 2 - i], p[n - 1 - i]);
    }
    ReachIn(g, u, v);
    assert PathFrom(g, Neg(v), Neg(u), q);
  }

  lemma MutualSkew(g: Graph, u: Lit, v: Lit)
    requires Skew(g) && Mutual(g, u, v)
    ensures Mutual(g, Neg(u), Neg(v))
  {
    ReachSkew(g, u, v);
    ReachSkew(g, v, u);
  }

  lemma MutualTrans(g: Graph, u: Lit, v: Lit, w: Lit)
    requires Mutual(g, u, v) && Mutual(g, v, w)
    ensures Mutual(g, u, w)
  {
    ReachTrans(g, u, v, w);
    ReachTrans(g, w, v, u);
  }

  /** If a component holds some literal with its negation, it does so for each of its literals. */
  lemma Contradictory(g: Graph, u: Lit, p: Lit)
    requires Skew(g) && Mutual(g, u, p) && Mutual(g, u, Neg(u))
    ensures Mutual(g, p, Neg(p))
  {
    MutualSkew(g, u, p);
    MutualTrans(g, p, u, Neg(u));
    MutualTrans(g, p, Neg(u), Neg(p));
  }

  // ----- meaning -----

  /** Every edge is a binary clause that follows. */
  ghost predicate Sound(f: set<Clause>, g: Graph) {
    forall u, v | Edge(g, u, v) :: Entails(f, [Neg(u), v])
  }

  lemma {:induction false} PathImplies(f: set<Clause>, g: Graph, p: seq<Lit>, i: nat, m: Assignment)
    requires Sound(f, g) && IsPath(g, p) && i < |p| && Sat(m, f) && True(m, p[0])
    ensures True(m, p[i])
  {
    if i > 0 {
      PathImplies(f, g, p, i - 1, m);
      assert Edge(g, p[i - 1], p[i]);
      var c := [Neg(p[i - 1]), p[i]];
      assert SatClause(m, c);
      var l :| l in c && True(m, l);
    }
  }

  lemma ReachImplies(f: set<Clause>, g: Graph, u: Lit, v: Lit, m: Assignment)
    requires Sound(f, g) && Reach(g, u, v) && Sat(m, f) && True(m, u)
    ensures True(m, v)
  {
    var p :| PathFrom(g, u, v, p);
    PathImplies(f, g, p, |p| - 1, m);
  }

  /** Literals of one component are equivalent. */
  lemma MutualEquivalent(f: set<Clause>, g: Graph, u: Lit, v: Lit, m: Assignment)
    requires Sound(f, g) && Mutual(g, u, v) && Sat(m, f)
    ensures True(m, u) == True(m, v)
  {
    if True(m, u) {
      ReachImplies(f, g, u, v, m);
    }
    if True(m, v) {
      ReachImplies(f, g, v, u, m);
    }
  }

  lemma ContradictoryUnsat(f: set<Clause>, g: Graph, u: Lit)
    requires Sound(f, g) && Mutual(g, u, Neg(u))
    ensures Unsat(f, {})
  {
    forall m: Assignment ensures !Sat(m, f) {
      if Sat(m, f) {
        MutualEquivalent(f, g, u, Neg(u), m);
      }
    }
  }
}
