/**
 The implication graph of the conflict level: ways from the conflict back to the
 decision, and the literal closest to the conflict that all of them pass.
 */
module Dominators {
  import opened Cnf
  import opened Trail

  /** A true literal of the conflict level. */
  predicate OnLevel(s: State, l: Lit) {
    FalseIn(s, Neg(l)) && Lev(s, l) == Level(s)
  }

  /** The falsity of `Neg(y)` helped to force x. */
  predicate Link(s: State, x: Lit, y: Lit) {
    Reason(s, x).Some? && Neg(y) in Reason(s, x).value && Neg(y) != x
  }

  ghost predicate Linked(s: State, p: seq<Lit>) {
    forall i | 0 <= i < |p| - 1 :: Link(s, p[i], p[i + 1])
  }

  ghost predicate AllOnLevel(s: State, p: seq<Lit>) {
    forall i | 0 <= i < |p| :: OnLevel(s, p[i])
  }

  /** From a literal of the conflict through reasons to a literal without a reason. */
  ghost predicate Way(s: State, conflict: Clause, p: seq<Lit>) {
    && p != [] && AllOnLevel(s, p) && Linked(s, p)
    && Neg(p[0]) in conflict && Reason(s, p[|p| - 1]).None?
  }

  ghost predicate Avoidable(s: State, conflict: Clause, x: Lit) {
    exists p: seq<Lit> :: Way(s, conflict, p) && x !in p
  }

  /** The literal is in the conflict or in the reason of a literal of the level from position n on. */
  ghost predicate Source(s: State, conflict: Clause, l: Lit, n: nat) {
    || l in conflict
    || exists k: nat | n <= k < |s.trail| && OnLevel(s, s.trail[k]) && Reason(s, s.trail[k]).Some? :: l in Reason(s, s.trail[k]).value
  }

  /**
   All ways pass uip, and it is the last literal of the trail of which this is true. The other
   literals of the clause come from the conflict or from reasons of later literals of the level.
   */
  ghost predicate FirstUnique(s: State, conflict: Clause, clause: Clause, uip: Lit) {
    && (forall p | Way(s, conflict, p) :: uip in p)
    && (forall x | OnLevel(s, x) && Pos(s, x) > Pos(s, uip) :: Avoidable(s, conflict, x))
    && forall l | l in clause && l != Neg(uip) :: Source(s, conflict, l, Pos(s, uip) + 1)
  }

  // ----- ways -----

  lemma TrailOnLevel(f: set<Clause>, s: State, k: nat)
    requires TrailOk(f, s) && k < |s.trail|
    ensures FalseIn(s, Neg(s.trail[k])) && Pos(s, s.trail[k]) == k
    ensures OnLevel(s, s.trail[k]) <==> Lev(s, s.trail[k]) == Level(s)
  {
    assert AtOk(f, s, k);
    assert Neg(Neg(s.trail[k])) == s.trail[k];
  }

  lemma OnLevelTrail(s: State, l: Lit)
    requires OnLevel(s, l)
    ensures Pos(s, l) < |s.trail| && s.trail[Pos(s, l)] == l
  {
    assert Neg(Neg(l)) == l;
  }

  /** What a reason links to comes earlier on the trail. */
  lemma LinkFacts(f: set<Clause>, s: State, x: Lit, y: Lit)
    requires TrailOk(f, s) && OnLevel(s, x) && Link(s, x, y)
    ensures FalseIn(s, Neg(y)) && Pos(s, y) < Pos(s, x) && Lev(s, y) <= Level(s)
  {
    OnLevelTrail(s, x);
    assert AtOk(f, s, Pos(s, x));
    assert Forces(f, s, x, Reason(s, x).value);
    assert Neg(y).v == y.v;
  }

  /** Every literal of the level leads to one without a reason. */
  lemma Descend(f: set<Clause>, s: State, x: Lit) returns (p: seq<Lit>)
    requires TrailOk(f, s) && Level(s) > 0 && OnLevel(s, x)
    ensures p != [] && p[0] == x && AllOnLevel(s, p) && Linked(s, p) && Reason(s, p[|p| - 1]).None?
    ensures forall i | 0 <= i < |p| :: Pos(s, p[i]) <= Pos(s, x)
    decreases Pos(s, x)
  {
    if Reason(s, x).None? {
      p := [x];
    } else {
      OnLevelTrail(s, x);
      assert AtOk(f, s, Pos(s, x));
      var c := Reason(s, x).value;
      assert Forces(f, s, x, c);
      var o :| o in c && o != x && Lev(s, o) == Lev(s, x);
      assert Neg(Neg(o)) == o && Neg(o).v == o.v;
      assert Link(s, x, Neg(o));
      LinkFacts(f, s, x, Neg(o));
      assert OnLevel(s, Neg(o));
      var q := Descend(f, s, Neg(o));
      p := [x] + q;
    }
  }

  /** A chain from the conflict to z, before z only through positions from n on. */
  ghost predicate Chain(s: State, conflict: Clause, p: seq<Lit>, z: Lit, n: nat) {
    && p != [] && p[|p| - 1] == z && AllOnLevel(s, p) && Linked(s, p) && Neg(p[0]) in conflict
    && forall i | 0 <= i < |p| - 1 :: Pos(s, p[i]) >= n
  }

  ghost predicate Reached(s: State, conflict: Clause, z: Lit, n: nat) {
    exists p: seq<Lit> :: Chain(s, conflict, p, z, n)
  }

  lemma ReachedLower(s: State, conflict: Clause, z: Lit, n: nat, m: nat)
    requires Reached(s, conflict, z, n) && m <= n
    ensures Reached(s, conflict, z, m)
  {
    var p :| Chain(s, conflict, p, z, n);
    assert Chain(s, conflict, p, z, m);
  }

  lemma ReachedStart(s: State, conflict: Clause, z: Lit, n: nat)
    requires OnLevel(s, z) && Neg(z) in conflict
    ensures Reached(s, conflict, z, n)
  {
    assert Chain(s, conflict, [z], z, n);
  }

  lemma ReachedNext(s: State, conflict: Clause, z: Lit, y: Lit, n: nat)
    requires Reached(s, conflict, z, n) && Pos(s, z) >= n && OnLevel(s, y) && Link(s, z, y)
    ensures Reached(s, conflict, y, n)
  {
    hide OnLevel, Link, Pos;
    var p :| Chain(s, conflict, p, z, n);
    var q := p + [y];
    forall i | 0 <= i < |q| - 1 ensures Link(s, q[i], q[i + 1]) {
      assert i < |p| - 1 ==> q[i] == p[i] && q[i + 1] == p[i + 1];
    }
    assert Chain(s, conflict, q, y, n);
  }

  /** A chain over later positions and a descent over earlier ones avoid what is between. */
  lemma AvoidBetween(f: set<Clause>, s: State, conflict: Clause, z: Lit, x: Lit, n: nat)
    requires TrailOk(f, s) && Level(s) > 0 && Reached(s, conflict, z, n) && OnLevel(s, z)
    requires Pos(s, z) < Pos(s, x) < n
    ensures Avoidable(s, conflict, x)
  {
    hide TrailOk;
    var p :| Chain(s, conflict, p, z, n);
    var d := Descend(f, s, z);
    hide OnLevel, Link;
    var q := p + d[1..];
    var last := |p| - 1;
    forall i | 0 <= i < |q| ensures q[i] == (if i <= last then p[i] else d[i - last]) && q[i] != x {
      assert i <= last ==> q[i] == p[i];
      assert i > last ==> q[i] == d[1..][i - |p|] == d[i - last];
    }
    forall i | 0 <= i < |q| - 1 ensures Link(s, q[i], q[i + 1]) {
      if i < last {
        assert Link(s, p[i], p[i + 1]);
      } else {
        assert q[i] == d[i - last] && q[i + 1] == d[i - last + 1];
      }
    }
    assert Way(s, conflict, q);
  }

  // ----- the walk -----

  /** A seen literal on the conflict level that is still to be resolved away. */
  predicate InFront(s: State, seen: set<nat>, k: nat) {
    k < |s.trail| && s.trail[k].v in seen && Lev(s, s.trail[k]) == Level(s)
  }

  /** The reason of a seen literal was looked at. */
  ghost predicate Resolved(s: State, seen: set<nat>, k: nat)
    requires k < |s.trail|
  {
    Reason(s, s.trail[k]).Some? && forall o | o in Reason(s, s.trail[k]).value && o != s.trail[k] && Lev(s, o) == Level(s) :: o.v in seen
  }

  ghost predicate Looked(s: State, seen: set<nat>, n: nat) {
    forall k: nat | n <= k && InFront(s, seen, k) :: Resolved(s, seen, k)
  }

  ghost predicate Fronted(s: State, conflict: Clause, seen: set<nat>, n: nat) {
    forall k: nat | k < n && InFront(s, seen, k) :: Reached(s, conflict, s.trail[k], n)
  }

  ghost predicate Sourced(s: State, conflict: Clause, clause: Clause, n: nat) {
    forall l | l in clause :: Source(s, conflict, l, n)
  }

  ghost predicate Avoided(s: State, conflict: Clause, n: nat) {
    forall k: nat | n <= k < |s.trail| && OnLevel(s, s.trail[k]) :: Avoidable(s, conflict, s.trail[k])
  }

  /** State of the walk back: everything from position n on was looked at. */
  ghost predicate Walk(s: State, conflict: Clause, clause: Clause, seen: set<nat>, n: nat) {
    && (forall l | l in conflict && Lev(s, l) == Level(s) :: l.v in seen)
    && Looked(s, seen, n) && Fronted(s, conflict, seen, n) && Sourced(s, conflict, clause, n) && Avoided(s, conflict, n)
  }

  /** After the conflict was looked at. */
  lemma WalkStart(f: set<Clause>, s: State, conflict: Clause, clause: Clause, seen: set<nat>)
    requires TrailOk(f, s) && forall l | l in conflict :: FalseIn(s, l)
    requires forall l | l in conflict && Lev(s, l) == Level(s) :: l.v in seen
    requires forall v | v in seen :: exists l | l in conflict :: l.v == v
    requires forall l | l in clause :: l in conflict
    ensures Walk(s, conflict, clause, seen, |s.trail|)
  {
    forall k: nat | InFront(s, seen, k) ensures Reached(s, conflict, s.trail[k], |s.trail|) {
      var l :| l in conflict && l.v == s.trail[k].v;
      TrailDistinct(f, s, k, Pos(s, l));
      TrailOnLevel(f, s, k);
      assert l == Neg(s.trail[k]);
      ReachedStart(s, conflict, s.trail[k], |s.trail|);
    }
  }

  /** The walk passes literals that are not in front, down to one that is. */
  lemma WalkDown(f: set<Clause>, s: State, conflict: Clause, clause: Clause, seen: set<nat>, n: nat, i: nat)
    requires TrailOk(f, s) && Level(s) > 0 && Walk(s, conflict, clause, seen, n)
    requires i < n <= |s.trail| && InFront(s, seen, i) && forall k | i < k < n :: !InFront(s, seen, k)
    ensures Walk(s, conflict, clause, seen, i + 1)
  {
    hide TrailOk, Way, Chain, Resolved;
    TrailOnLevel(f, s, i);
    forall k: nat | k < i + 1 && InFront(s, seen, k) ensures Reached(s, conflict, s.trail[k], i + 1) {
      ReachedLower(s, conflict, s.trail[k], n, i + 1);
    }
    forall l | l in clause ensures Source(s, conflict, l, i + 1) {
      SourceLower(s, conflict, l, n, i + 1);
    }
    forall k: nat | i + 1 <= k < |s.trail| && OnLevel(s, s.trail[k]) ensures Avoidable(s, conflict, s.trail[k]) {
      if k < n {
        TrailOnLevel(f, s, k);
        AvoidBetween(f, s, conflict, s.trail[i], s.trail[k], n);
      }
    }
  }

  lemma SourceLower(s: State, conflict: Clause, l: Lit, n: nat, m: nat)
    requires Source(s, conflict, l, n) && m <= n
    ensures Source(s, conflict, l, m)
  {
  }

  /** With another literal in front the current one can be avoided. */
  lemma WalkAvoid(f: set<Clause>, s: State, conflict: Clause, clause: Clause, seen: set<nat>, i: nat, k: nat)
    requires TrailOk(f, s) && Level(s) > 0 && Walk(s, conflict, clause, seen, i + 1)
    requires InFront(s, seen, i) && InFront(s, seen, k) && k < i
    ensures Avoidable(s, conflict, s.trail[i])
  {
    hide TrailOk, Way, Chain;
    TrailOnLevel(f, s, i);
    TrailOnLevel(f, s, k);
    AvoidBetween(f, s, conflict, s.trail[k], s.trail[i], i + 1);
  }

  /** What looking at the reason of position i adds. */
  ghost predicate LookedAt(s: State, clause: Clause, seen: set<nat>, i: nat, clause': Clause, seen': set<nat>)
    requires i < |s.trail|
  {
    var x := s.trail[i];
    && Reason(s, x).Some? && seen <= seen'
    && var c := Reason(s, x).value;
    && (forall o | o in c && o != x && Lev(s, o) == Level(s) :: o.v in seen')
    && (forall v | v in seen' :: v in seen || exists o | o in c && o != x :: o.v == v)
    && (forall l | l in clause' :: l in clause || l in c)
  }

  /** The reason of the current literal was looked at. */
  lemma WalkResolve(f: set<Clause>, s: State, conflict: Clause, clause: Clause, seen: set<nat>, i: nat, clause': Clause, seen': set<nat>)
    requires TrailOk(f, s) && Walk(s, conflict, clause, seen, i + 1) && InFront(s, seen, i)
    requires Avoidable(s, conflict, s.trail[i]) && LookedAt(s, clause, seen, i, clause', seen')
    ensures Walk(s, conflict, clause', seen', i)
  {
    hide TrailOk, Avoidable, Looked, Fronted, Sourced, InFront;
    assert seen <= seen';
    ResolveLooked(f, s, conflict, clause, seen, i, clause', seen');
    ResolveFronted(f, s, conflict, clause, seen, i, clause', seen');
    ResolveSourced(f, s, conflict, clause, seen, i, clause', seen');
  }

  lemma NewFront(f: set<Clause>, s: State, conflict: Clause, clause: Clause, seen: set<nat>, i: nat, clause': Clause, seen': set<nat>, k: nat)
    requires TrailOk(f, s) && Fronted(s, conflict, seen, i + 1) && InFront(s, seen, i) && LookedAt(s, clause, seen, i, clause', seen')
    requires InFront(s, seen', k) && !InFront(s, seen, k)
    ensures k < i && Reached(s, conflict, s.trail[k], i)
  {
    TrailOnLevel(f, s, i);
    var o :| o in Reason(s, s.trail[i]).value && o != s.trail[i] && o.v == s.trail[k].v;
    hide TrailOk, Reached;
    NewInFront(f, s, conflict, i, k, o);
  }

  lemma ResolveLooked(f: set<Clause>, s: State, conflict: Clause, clause: Clause, seen: set<nat>, i: nat, clause': Clause, seen': set<nat>)
    requires TrailOk(f, s) && Looked(s, seen, i + 1) && Fronted(s, conflict, seen, i + 1) && InFront(s, seen, i)
    requires LookedAt(s, clause, seen, i, clause', seen')
    ensures Looked(s, seen', i)
  {
    hide TrailOk, Fronted, InFront, Resolved;
    forall k: nat | i <= k && InFront(s, seen', k) ensures k < |s.trail| && Resolved(s, seen', k) {
      FrontRange(s, seen', k);
      if !InFront(s, seen, k) {
        NewFront(f, s, conflict, clause, seen, i, clause', seen', k);
      } else if k == i {
        ResolvedAt(s, seen', i);
      } else {
        ResolvedMore(s, seen, seen', k);
      }
    }
  }

  lemma FrontRange(s: State, seen: set<nat>, k: nat)
    requires InFront(s, seen, k)
    ensures k < |s.trail|
  {
  }

  lemma ResolveFronted(f: set<Clause>, s: State, conflict: Clause, clause: Clause, seen: set<nat>, i: nat, clause': Clause, seen': set<nat>)
    requires TrailOk(f, s) && Fronted(s, conflict, seen, i + 1) && InFront(s, seen, i)
    requires LookedAt(s, clause, seen, i, clause', seen')
    ensures Fronted(s, conflict, seen', i)
  {
    hide TrailOk, LookedAt, InFront, Reached;
    forall k: nat | k < i && InFront(s, seen', k) ensures k < |s.trail| && Reached(s, conflict, s.trail[k], i) {
      FrontRange(s, seen', k);
      if InFront(s, seen, k) {
        ReachedLower(s, conflict, s.trail[k], i + 1, i);
      } else {
        NewFront(f, s, conflict, clause, seen, i, clause', seen', k);
      }
    }
  }

  lemma ResolveSourced(f: set<Clause>, s: State, conflict: Clause, clause: Clause, seen: set<nat>, i: nat, clause': Clause, seen': set<nat>)
    requires TrailOk(f, s) && Sourced(s, conflict, clause, i + 1) && InFront(s, seen, i)
    requires LookedAt(s, clause, seen, i, clause', seen')
    ensures Sourced(s, conflict, clause', i)
  {
    TrailOnLevel(f, s, i);
    hide TrailOk;
    forall l | l in clause' ensures Source(s, conflict, l, i) {
      if l in clause {
        SourceLower(s, conflict, l, i + 1, i);
      } else {
        assert l in Reason(s, s.trail[i]).value;
      }
    }
  }

  lemma ResolvedAt(s: State, seen: set<nat>, k: nat)
    requires k < |s.trail| && Reason(s, s.trail[k]).Some?
    requires forall o | o in Reason(s, s.trail[k]).value && o != s.trail[k] && Lev(s, o) == Level(s) :: o.v in seen
    ensures Resolved(s, seen, k)
  {
  }

  lemma ResolvedMore(s: State, seen: set<nat>, seen': set<nat>, k: nat)
    requires k < |s.trail| && Resolved(s, seen, k) && seen <= seen'
    ensures Resolved(s, seen', k)
  {
  }

  lemma NewInFront(f: set<Clause>, s: State, conflict: Clause, i: nat, k: nat, o: Lit)
    requires TrailOk(f, s) && i < |s.trail| && k < |s.trail| && OnLevel(s, s.trail[i]) && Lev(s, s.trail[k]) == Level(s)
    requires Reason(s, s.trail[i]).Some? && o in Reason(s, s.trail[i]).value && o != s.trail[i] && o.v == s.trail[k].v
    requires Reached(s, conflict, s.trail[i], i + 1)
    ensures k < i && Reached(s, conflict, s.trail[k], i)
  {
    var x := s.trail[i];
    assert Neg(Neg(o)) == o;
    assert Link(s, x, Neg(o));
    LinkFacts(f, s, x, Neg(o));
    TrailOnLevel(f, s, i);
    TrailOnLevel(f, s, k);
    TrailDistinct(f, s, k, Pos(s, o));
    assert s.trail[k] == Neg(o);
    ReachedLower(s, conflict, x, i + 1, i);
    ReachedNext(s, conflict, x, s.trail[k], i);
  }

  /** A way stays on seen literals down to the last one in front. */
  lemma {:induction false} WayMeets(f: set<Clause>, s: State, conflict: Clause, clause: Clause, seen: set<nat>, i: nat, p: seq<Lit>, j: nat)
    requires TrailOk(f, s) && Walk(s, conflict, clause, seen, i + 1) && Way(s, conflict, p) && j < |p| && i < |s.trail|
    requires InFront(s, seen, i) && forall k: nat | k < i :: !InFront(s, seen, k)
    requires p[j].v in seen && forall x | 0 <= x < j :: Pos(s, p[x]) > i
    ensures s.trail[i] in p
    decreases |p| - j
  {
    OnLevelTrail(s, p[j]);
    var k := Pos(s, p[j]);
    assert InFront(s, seen, k);
    if k > i {
      assert Resolved(s, seen, k);
      assert j < |p| - 1;
      assert Link(s, p[j], p[j + 1]);
      assert OnLevel(s, p[j + 1]) && Neg(p[j + 1]).v == p[j + 1].v;
      assert Lev(s, Neg(p[j + 1])) == Lev(s, p[j + 1]);
      WayMeets(f, s, conflict, clause, seen, i, p, j + 1);
    } else {
      assert k == i;
    }
  }

  /** One literal is left in front: the first unique implication point. */
  lemma WalkEnd(f: set<Clause>, s: State, conflict: Clause, clause: Clause, seen: set<nat>, i: nat)
    requires TrailOk(f, s) && Walk(s, conflict, clause, seen, i + 1) && i < |s.trail|
    requires InFront(s, seen, i) && forall k: nat | k < i :: !InFront(s, seen, k)
    ensures FirstUnique(s, conflict, clause + [Neg(s.trail[i])], s.trail[i])
  {
    var uip := s.trail[i];
    TrailOnLevel(f, s, i);
    forall p: seq<Lit> | Way(s, conflict, p) ensures uip in p {
      assert Neg(p[0]) in conflict && OnLevel(s, p[0]) && Neg(p[0]).v == p[0].v;
      assert Lev(s, Neg(p[0])) == Lev(s, p[0]);
      WayMeets(f, s, conflict, clause, seen, i, p, 0);
    }
    hide Way, TrailOk;
    forall x | OnLevel(s, x) && Pos(s, x) > i ensures Avoidable(s, conflict, x) {
      OnLevelTrail(s, x);
    }
  }
}
