/**
 The depth first search of equivalent-literal detection: an iterative form of
 Tarjan's algorithm in which a literal can be on the working stack more than
 once. This module holds its invariant and shows that every step keeps it.
 */
module Tarjan {
  import opened Cnf
  import opened Implications

  /** `done` are the completely traversed literals, whose minimum counts as infinite. */
  datatype Dfs = Dfs(idx: map<Lit, nat>, low: map<Lit, nat>, done: set<Lit>, work: seq<Lit>, scc: seq<Lit>, count: nat)

  /** The literals that wait for their children, and where they are on the working stack. */
  datatype Path = Path(gray: seq<Lit>, pos: seq<nat>)

  function Idx(d: Dfs, l: Lit): (r: nat) {
    if l in d.idx then d.idx[l] else 0
  }

  function Low(d: Dfs, l: Lit): (r: nat) {
    if l in d.low then d.low[l] else 0
  }

  /** Processed, but its component is not complete. */
  predicate Black(d: Dfs, p: Path, l: Lit) {
    l in d.scc && l !in p.gray
  }

  // ----- the invariant -----

  ghost predicate StackAt(g: Graph, d: Dfs, l: Lit) {
    && (l in d.scc <==> Idx(d, l) > 0 && l !in d.done)
    && Idx(d, l) <= d.count && (Idx(d, l) > 0 ==> l in g) && (l in d.done ==> Idx(d, l) > 0)
  }

  ghost predicate Increasing(d: Dfs, s: seq<Lit>) {
    forall i, j | 0 <= i < j < |s| :: Idx(d, s[i]) < Idx(d, s[j])
  }

  ghost predicate StackOk(g: Graph, d: Dfs) {
    Increasing(d, d.scc) && (forall l: Lit :: StackAt(g, d, l)) && ClosedSet(g, d.done)
  }

  ghost predicate GrayOk(d: Dfs, p: Path) {
    && Increasing(d, p.gray)
    && (forall i | 0 <= i < |p.gray| :: p.gray[i] in d.scc)
    && (d.scc != [] ==> p.gray != [] && p.gray[0] == d.scc[0])
  }

  ghost predicate LowReached(g: Graph, d: Dfs, l: Lit, n: nat) {
    exists w | w in d.scc :: Idx(d, w) == n && Reach(g, l, w)
  }

  ghost predicate LowAt(g: Graph, d: Dfs, p: Path, l: Lit) {
    l in d.scc ==>
      && Low(d, l) <= Idx(d, l) && LowReached(g, d, l, Low(d, l))
      && (if l in p.gray then Low(d, l) == Idx(d, l) else Low(d, l) < Idx(d, l))
  }

  /** A literal reaches its minimum, which is smaller than its own number once it was processed. */
  ghost predicate LowOk(g: Graph, d: Dfs, p: Path) {
    forall l: Lit :: LowAt(g, d, p, l)
  }

  ghost predicate GrayReachAt(g: Graph, d: Dfs, p: Path, j: nat, u: Lit) {
    j < |p.gray| && u in d.scc && Idx(d, p.gray[j]) <= Idx(d, u) ==> Reach(g, p.gray[j], u)
  }

  /** A waiting literal reaches everything above it. */
  ghost predicate GrayReach(g: Graph, d: Dfs, p: Path) {
    forall j: nat, u: Lit :: GrayReachAt(g, d, p, j, u)
  }

  ghost predicate BlackDoneAt(g: Graph, d: Dfs, p: Path, u: Lit, v: Lit) {
    Black(d, p, u) && Edge(g, u, v) ==> Idx(d, v) > 0
  }

  ghost predicate BlackDone(g: Graph, d: Dfs, p: Path) {
    forall u: Lit, v: Lit :: BlackDoneAt(g, d, p, u, v)
  }

  function SegEnd(d: Dfs, p: Path, j: nat): (r: nat) {
    if j + 1 < |p.pos| then p.pos[j + 1] else |d.work|
  }

  ghost predicate ChildAt(g: Graph, d: Dfs, p: Path, j: nat, i: nat) {
    j < |p.gray| && j < |p.pos| && i < |d.work| && p.pos[j] < i < SegEnd(d, p, j) ==> Edge(g, p.gray[j], d.work[i])
  }

  ghost predicate TopmostAt(d: Dfs, p: Path, j: nat, i: nat) {
    j < |p.gray| && j < |p.pos| && i < |d.work| && d.work[i] == p.gray[j] ==> i <= p.pos[j]
  }

  ghost predicate Positions(d: Dfs, p: Path) {
    && |p.pos| == |p.gray|
    && (forall i, j | 0 <= i < j < |p.pos| :: p.pos[i] < p.pos[j])
    && (forall j | 0 <= j < |p.pos| :: p.pos[j] < |d.work| && d.work[p.pos[j]] == p.gray[j])
    && (p.gray != [] ==> p.pos[0] == 0) && (p.gray == [] ==> |d.work| <= 1)
  }

  ghost predicate TreeEdges(g: Graph, p: Path) {
    forall j | 0 <= j < |p.gray| - 1 :: Edge(g, p.gray[j], p.gray[j + 1])
  }

  /** Between two waiting literals lie children of the lower one, and the upper one is a child too. */
  ghost predicate WorkOk(g: Graph, d: Dfs, p: Path) {
    && Positions(d, p) && TreeEdges(g, p)
    && (forall i | 0 <= i < |d.work| :: d.work[i] in g)
    && (forall j: nat, i: nat :: ChildAt(g, d, p, j, i))
    && (forall j: nat, i: nat :: TopmostAt(d, p, j, i))
  }

  ghost predicate OnStackAbove(d: Dfs, n: nat, c: Lit) {
    exists i | n < i < |d.work| :: d.work[i] == c
  }

  ghost predicate KidAt(g: Graph, d: Dfs, p: Path, j: nat, c: Lit) {
    j < |p.gray| && j < |p.pos| && Edge(g, p.gray[j], c) && Idx(d, c) == 0 ==> OnStackAbove(d, p.pos[j], c)
  }

  /** Children not visited yet are on the stack above. */
  ghost predicate KidsOk(g: Graph, d: Dfs, p: Path) {
    forall j: nat, c: Lit :: KidAt(g, d, p, j, c)
  }

  /** u was processed below the j-th waiting literal. */
  predicate InSegment(d: Dfs, p: Path, j: nat, u: Lit) {
    && j < |p.gray| && Black(d, p, u) && Idx(d, p.gray[j]) < Idx(d, u)
    && (j + 1 < |p.gray| ==> Idx(d, u) < Idx(d, p.gray[j + 1]))
  }

  /** A processed child of the j-th waiting literal has a minimum that accounts for v. */
  ghost predicate Covered(g: Graph, d: Dfs, p: Path, j: nat, v: Lit)
    requires j < |p.gray|
  {
    exists c | Black(d, p, c) :: Edge(g, p.gray[j], c) && Low(d, c) <= Idx(d, v)
  }

  ghost predicate SegmentAt(g: Graph, d: Dfs, p: Path, j: nat, u: Lit, v: Lit) {
    InSegment(d, p, j, u) && v in d.scc && Edge(g, u, v) ==> Covered(g, d, p, j, v)
  }

  ghost predicate SegmentsOk(g: Graph, d: Dfs, p: Path) {
    forall j: nat, u: Lit, v: Lit :: SegmentAt(g, d, p, j, u, v)
  }

  ghost predicate Inv(g: Graph, d: Dfs, p: Path) {
    && StackOk(g, d) && GrayOk(d, p) && LowOk(g, d, p) && GrayReach(g, d, p) && BlackDone(g, d, p)
    && WorkOk(g, d, p) && KidsOk(g, d, p) && SegmentsOk(g, d, p)
  }

  // ----- steps that leave the numbering and the component stack alone -----

  /** Only minima get smaller and the working stack changes. */
  ghost predicate Calm(d: Dfs, d': Dfs) {
    d'.idx == d.idx && d'.done == d.done && d'.scc == d.scc && d'.count == d.count
  }

  lemma CalmStack(g: Graph, d: Dfs, d': Dfs, p: Path)
    requires Calm(d, d') && StackOk(g, d) && GrayOk(d, p) && GrayReach(g, d, p) && BlackDone(g, d, p)
    ensures StackOk(g, d') && GrayOk(d', p) && GrayReach(g, d', p) && BlackDone(g, d', p)
  {
    assert forall l: Lit :: Idx(d', l) == Idx(d, l);
    hide Idx;
    forall l: Lit ensures StackAt(g, d', l) {
      assert StackAt(g, d, l);
    }
    forall j: nat, u: Lit ensures GrayReachAt(g, d', p, j, u) {
      assert GrayReachAt(g, d, p, j, u);
    }
    forall u: Lit, v: Lit ensures BlackDoneAt(g, d', p, u, v) {
      assert BlackDoneAt(g, d, p, u, v);
    }
  }

  lemma CalmLow(g: Graph, d: Dfs, d': Dfs, p: Path, x: Lit, n: nat)
    requires Calm(d, d') && LowOk(g, d, p)
    requires d'.low == d.low || (d'.low == d.low[x := n] && Black(d, p, x) && n <= Low(d, x) && LowReached(g, d, x, n))
    ensures LowOk(g, d', p)
  {
    forall l: Lit ensures LowAt(g, d', p, l) {
      assert LowAt(g, d, p, l);
      if l in d.scc {
        ReachedSame(g, d, d', l, Low(d', l));
      }
    }
  }

  lemma ReachedSame(g: Graph, d: Dfs, d': Dfs, l: Lit, n: nat)
    requires d'.idx == d.idx && d'.scc == d.scc && LowReached(g, d, l, n)
    ensures LowReached(g, d', l, n)
  {
    hide Reach;
    var w :| w in d.scc && Idx(d, w) == n && Reach(g, l, w);
    assert Idx(d', w) == Idx(d, w);
  }

  lemma CalmSegments(g: Graph, d: Dfs, d': Dfs, p: Path)
    requires Calm(d, d') && SegmentsOk(g, d, p) && forall c | c in d.scc :: Low(d', c) <= Low(d, c)
    ensures SegmentsOk(g, d', p)
  {
    forall j: nat, u: Lit, v: Lit ensures SegmentAt(g, d', p, j, u, v) {
      assert SegmentAt(g, d, p, j, u, v);
      if InSegment(d, p, j, u) && v in d.scc && Edge(g, u, v) {
        CoveredSame(g, d, d', p, j, v);
      }
    }
  }

  lemma CoveredSame(g: Graph, d: Dfs, d': Dfs, p: Path, j: nat, v: Lit)
    requires Calm(d, d') && j < |p.gray| && Covered(g, d, p, j, v) && forall c | c in d.scc :: Low(d', c) <= Low(d, c)
    ensures Covered(g, d', p, j, v)
  {
    var c :| Black(d, p, c) && Edge(g, p.gray[j], c) && Low(d, c) <= Idx(d, v);
    assert Black(d', p, c) && Idx(d', v) == Idx(d, v);
  }

  // ----- a stale entry is popped -----

  function Popped(d: Dfs): (r: Dfs)
    requires d.work != []
  {
    d.(work := d.work[..|d.work| - 1])
  }

  /** The top of the working stack is not waiting for its children. */
  predicate StaleTop(d: Dfs, p: Path) {
    d.work != [] && (p.pos == [] || p.pos[|p.pos| - 1] < |d.work| - 1)
  }

  lemma PopWork(g: Graph, d: Dfs, p: Path)
    requires WorkOk(g, d, p) && StaleTop(d, p) && Idx(d, d.work[|d.work| - 1]) > 0 && KidsOk(g, d, p)
    ensures WorkOk(g, Popped(d), p) && KidsOk(g, Popped(d), p)
  {
    var d' := Popped(d);
    forall j: nat, i: nat ensures ChildAt(g, d', p, j, i) {
      assert ChildAt(g, d, p, j, i);
    }
    forall j: nat, i: nat ensures TopmostAt(d', p, j, i) {
      assert TopmostAt(d, p, j, i);
    }
    forall j: nat, c: Lit ensures KidAt(g, d', p, j, c) {
      assert KidAt(g, d, p, j, c);
      if j < |p.gray| && Edge(g, p.gray[j], c) && Idx(d, c) == 0 {
        var i :| p.pos[j] < i < |d.work| && d.work[i] == c;
        assert d'.work[i] == c;
      }
    }
  }

  /** A stale entry is popped, and the minimum of its literal may get smaller. */
  lemma PopInv(g: Graph, d: Dfs, d': Dfs, p: Path, x: Lit, n: nat)
    requires Inv(g, d, p) && StaleTop(d, p) && x == d.work[|d.work| - 1] && Idx(d, x) > 0
    requires d' == Popped(d) || (d' == Popped(d).(low := d.low[x := n]) && Black(d, p, x) && n <= Low(d, x) && LowReached(g, d, x, n))
    ensures Inv(g, d', p)
  {
    PopWork(g, d, p);
    CalmWork(g, Popped(d), d', p);
    hide WorkOk, KidsOk;
    CalmStack(g, d, d', p);
    hide StackOk, GrayOk, GrayReach, BlackDone;
    CalmLow(g, d, d', p, x, n);
    hide LowOk;
    CalmSegments(g, d, d', p);
  }

  lemma CalmWork(g: Graph, d: Dfs, d': Dfs, p: Path)
    requires Calm(d, d') && d'.work == d.work && WorkOk(g, d, p) && KidsOk(g, d, p)
    ensures WorkOk(g, d', p) && KidsOk(g, d', p)
  {
    forall j: nat, i: nat ensures ChildAt(g, d', p, j, i) {
      assert ChildAt(g, d, p, j, i);
    }
    forall j: nat, i: nat ensures TopmostAt(d', p, j, i) {
      assert TopmostAt(d, p, j, i);
    }
    forall j: nat, c: Lit ensures KidAt(g, d', p, j, c) {
      assert KidAt(g, d, p, j, c);
      if OnStackAbove(d, if j < |p.pos| then p.pos[j] else 0, c) {
        assert OnStackAbove(d', if j < |p.pos| then p.pos[j] else 0, c);
      }
    }
  }

  // ----- a literal is visited -----

  function Visited(d: Dfs, x: Lit, kids: seq<Lit>): (r: Dfs) {
    var n := d.count + 1;
    d.(idx := d.idx[x := n], low := d.low[x := n], scc := d.scc + [x], count := n, work := d.work + kids)
  }

  function Waiting(d: Dfs, p: Path, x: Lit): (r: Path)
    requires d.work != []
  {
    Path(p.gray + [x], p.pos + [|d.work| - 1])
  }

  /** The unvisited children, in whatever order and number. */
  ghost predicate Kids(g: Graph, d: Dfs, x: Lit, kids: seq<Lit>) {
    forall c :: c in kids <==> Edge(g, x, c) && c != x && Idx(d, c) == 0
  }

  ghost predicate CanVisit(g: Graph, d: Dfs, p: Path, x: Lit, kids: seq<Lit>) {
    Inv(g, d, p) && StaleTop(d, p) && x == d.work[|d.work| - 1] && Idx(d, x) == 0 && Kids(g, d, x, kids)
  }

  lemma VisitFacts(g: Graph, d: Dfs, p: Path, x: Lit, kids: seq<Lit>)
    requires CanVisit(g, d, p, x, kids)
    ensures x in g && x !in d.scc && x !in d.done && x !in p.gray
    ensures p.gray != [] ==> Edge(g, p.gray[|p.gray| - 1], x)
    ensures forall l :: Idx(Visited(d, x, kids), l) == if l == x then d.count + 1 else Idx(d, l)
    ensures forall l | l != x :: Low(Visited(d, x, kids), l) == Low(d, l)
    ensures forall l: Lit :: Idx(d, l) <= d.count
  {
    hide LowOk, GrayReach, BlackDone, KidsOk, SegmentsOk;
    assert StackAt(g, d, x);
    forall l: Lit ensures Idx(d, l) <= d.count {
      assert StackAt(g, d, l);
    }
    if p.gray != [] {
      assert ChildAt(g, d, p, |p.gray| - 1, |d.work| - 1);
    }
  }

  lemma VisitStack(g: Graph, d: Dfs, p: Path, x: Lit, kids: seq<Lit>)
    requires CanVisit(g, d, p, x, kids)
    ensures StackOk(g, Visited(d, x, kids)) && GrayOk(Visited(d, x, kids), Waiting(d, p, x))
  {
    VisitFacts(g, d, p, x, kids);
    hide LowOk, GrayReach, BlackDone, KidsOk, SegmentsOk, WorkOk;
    var d', p' := Visited(d, x, kids), Waiting(d, p, x);
    forall l: Lit ensures StackAt(g, d', l) {
      assert StackAt(g, d, l);
    }
    assert d.scc == [] ==> p.gray == [] by {
      assert p.gray != [] ==> p.gray[0] in d.scc;
    }
    assert forall i | 0 <= i < |d.scc| :: d.scc[i] != x by {
      assert forall i | 0 <= i < |d.scc| :: d.scc[i] in d.scc;
    }
    assert forall i | 0 <= i < |p.gray| :: p.gray[i] != x by {
      assert forall i | 0 <= i < |p.gray| :: p.gray[i] in p.gray;
    }
    assert Increasing(d', d'.scc);
    assert Increasing(d', p'.gray);
  }

  lemma VisitLow(g: Graph, d: Dfs, p: Path, x: Lit, kids: seq<Lit>)
    requires CanVisit(g, d, p, x, kids)
    ensures LowOk(g, Visited(d, x, kids), Waiting(d, p, x))
  {
    VisitFacts(g, d, p, x, kids);
    hide StackOk, GrayOk, GrayReach, BlackDone, KidsOk, SegmentsOk, WorkOk;
    var d', p' := Visited(d, x, kids), Waiting(d, p, x);
    forall l: Lit ensures LowAt(g, d', p', l) {
      if l == x {
        ReachSelf(g, x);
        assert x in d'.scc && Idx(d', x) == d.count + 1 == Low(d', x);
        assert LowReached(g, d', x, d.count + 1);
      } else if l in d.scc {
        assert LowAt(g, d, p, l);
        var w :| w in d.scc && Idx(d, w) == Low(d, l) && Reach(g, l, w);
        assert w in d'.scc && Idx(d', w) == Low(d', l);
        assert LowReached(g, d', l, Low(d', l));
      }
    }
  }

  lemma VisitReach(g: Graph, d: Dfs, p: Path, x: Lit, kids: seq<Lit>)
    requires CanVisit(g, d, p, x, kids)
    ensures GrayReach(g, Visited(d, x, kids), Waiting(d, p, x)) && BlackDone(g, Visited(d, x, kids), Waiting(d, p, x))
  {
    VisitFacts(g, d, p, x, kids);
    hide LowOk, KidsOk, SegmentsOk, WorkOk;
    var d', p' := Visited(d, x, kids), Waiting(d, p, x);
    var m := |p.gray|;
    forall j: nat, u: Lit ensures GrayReachAt(g, d', p', j, u) {
      if j < m {
        assert p.gray[j] in p.gray;
        if u == x {
          var top := p.gray[m - 1];
          assert GrayReachAt(g, d, p, j, top);
          assert Idx(d, p.gray[j]) <= Idx(d, top);
          ReachEdge(g, top, x);
          ReachTrans(g, p.gray[j], top, x);
        } else {
          assert GrayReachAt(g, d, p, j, u);
        }
      } else if j == m && u == x {
        ReachSelf(g, x);
      }
    }
    forall u: Lit, v: Lit ensures BlackDoneAt(g, d', p', u, v) {
      assert BlackDoneAt(g, d, p, u, v);
    }
  }

  lemma VisitWork(g: Graph, d: Dfs, p: Path, x: Lit, kids: seq<Lit>)
    requires CanVisit(g, d, p, x, kids)
    ensures WorkOk(g, Visited(d, x, kids), Waiting(d, p, x))
  {
    VisitFacts(g, d, p, x, kids);
    GrayVisited(g, d, p);
    hide LowOk, GrayReach, BlackDone, SegmentsOk, KidsOk, StackOk, GrayOk;
    VisitPositions(g, d, p, x, kids);
    VisitTopmost(g, d, p, x, kids);
    VisitChildren(g, d, p, x, kids);
    hide TreeEdges, Positions, ChildAt, TopmostAt;
  }

  lemma VisitPositions(g: Graph, d: Dfs, p: Path, x: Lit, kids: seq<Lit>)
    requires WorkOk(g, d, p) && StaleTop(d, p) && x == d.work[|d.work| - 1] && Kids(g, d, x, kids)
    requires p.gray != [] ==> Edge(g, p.gray[|p.gray| - 1], x)
    ensures var d', p' := Visited(d, x, kids), Waiting(d, p, x);
            Positions(d', p') && TreeEdges(g, p') && forall i | 0 <= i < |d'.work| :: d'.work[i] in g
  {
    hide ChildAt, TopmostAt;
    var d' := Visited(d, x, kids);
    var n := |d.work|;
    assert forall i | 0 <= i < n :: d'.work[i] == d.work[i];
    assert forall i | n <= i < |d'.work| :: d'.work[i] in kids;
  }

  lemma VisitTopmost(g: Graph, d: Dfs, p: Path, x: Lit, kids: seq<Lit>)
    requires WorkOk(g, d, p) && StaleTop(d, p) && x == d.work[|d.work| - 1] && Kids(g, d, x, kids)
    requires forall j | 0 <= j < |p.gray| :: Idx(d, p.gray[j]) > 0
    ensures forall j: nat, i: nat :: TopmostAt(Visited(d, x, kids), Waiting(d, p, x), j, i)
  {
    var d', p' := Visited(d, x, kids), Waiting(d, p, x);
    var n, m := |d.work|, |p.gray|;
    assert forall i | n <= i < |d'.work| :: d'.work[i] in kids;
    forall j: nat, i: nat ensures TopmostAt(d', p', j, i) {
      if j < m && i < n {
        assert TopmostAt(d, p, j, i);
      }
    }
  }

  lemma VisitChildren(g: Graph, d: Dfs, p: Path, x: Lit, kids: seq<Lit>)
    requires WorkOk(g, d, p) && StaleTop(d, p) && x == d.work[|d.work| - 1] && Kids(g, d, x, kids)
    ensures forall j: nat, i: nat :: ChildAt(g, Visited(d, x, kids), Waiting(d, p, x), j, i)
  {
    var d', p' := Visited(d, x, kids), Waiting(d, p, x);
    var n, m := |d.work|, |p.gray|;
    assert forall i | n <= i < |d'.work| :: d'.work[i] in kids;
    forall j: nat, i: nat ensures ChildAt(g, d', p', j, i) {
      if j < m && i < n {
        assert ChildAt(g, d, p, j, i);
      }
    }
  }

  lemma GrayVisited(g: Graph, d: Dfs, p: Path)
    requires StackOk(g, d) && GrayOk(d, p)
    ensures forall j | 0 <= j < |p.gray| :: Idx(d, p.gray[j]) > 0
  {
    forall j | 0 <= j < |p.gray| ensures Idx(d, p.gray[j]) > 0 {
      assert StackAt(g, d, p.gray[j]);
    }
  }

  lemma VisitKids(g: Graph, d: Dfs, p: Path, x: Lit, kids: seq<Lit>)
    requires CanVisit(g, d, p, x, kids)
    ensures KidsOk(g, Visited(d, x, kids), Waiting(d, p, x))
  {
    VisitFacts(g, d, p, x, kids);
    hide LowOk, GrayReach, BlackDone, SegmentsOk, StackOk, GrayOk;
    var d', p' := Visited(d, x, kids), Waiting(d, p, x);
    var n, m := |d.work|, |p.gray|;
    assert Positions(d, p);
    hide WorkOk, Positions;
    forall j: nat, c: Lit ensures KidAt(g, d', p', j, c) {
      if j < m {
        assert KidAt(g, d, p, j, c);
        if Edge(g, p.gray[j], c) && Idx(d', c) == 0 {
          var i :| p.pos[j] < i < n && d.work[i] == c;
          assert d'.work[i] == c;
        }
      } else if j == m && Edge(g, x, c) && Idx(d', c) == 0 {
        assert c in kids;
        var k :| 0 <= k < |kids| && kids[k] == c;
        assert d'.work[n + k] == c;
      }
    }
  }

  lemma VisitCovered(g: Graph, d: Dfs, p: Path, x: Lit, kids: seq<Lit>, j: nat, u: Lit, v: Lit)
    requires CanVisit(g, d, p, x, kids) && InSegment(Visited(d, x, kids), Waiting(d, p, x), j, u) && v in d.scc + [x] && Edge(g, u, v)
    ensures Covered(g, Visited(d, x, kids), Waiting(d, p, x), j, v)
  {
    VisitFacts(g, d, p, x, kids);
    var d', p' := Visited(d, x, kids), Waiting(d, p, x);
    var m := |p.gray|;
    assert BlackDoneAt(g, d, p, u, v);
    assert SegmentAt(g, d, p, j, u, v);
    hide LowOk, GrayReach, KidsOk, WorkOk, StackOk, GrayOk, BlackDone, SegmentsOk;
    assert u != x && Black(d, p, u) && j < m && v != x;
    assert p.gray[j] in p.gray && p'.gray[j] == p.gray[j];
    assert j + 1 < m ==> p.gray[j + 1] in p.gray && p'.gray[j + 1] == p.gray[j + 1];
    assert InSegment(d, p, j, u);
    var c :| Black(d, p, c) && Edge(g, p.gray[j], c) && Low(d, c) <= Idx(d, v);
    assert Black(d', p', c);
  }

  lemma VisitSegments(g: Graph, d: Dfs, p: Path, x: Lit, kids: seq<Lit>)
    requires CanVisit(g, d, p, x, kids)
    ensures SegmentsOk(g, Visited(d, x, kids), Waiting(d, p, x))
  {
    var d', p' := Visited(d, x, kids), Waiting(d, p, x);
    forall j: nat, u: Lit, v: Lit ensures SegmentAt(g, d', p', j, u, v) {
      hide CanVisit, Covered;
      if InSegment(d', p', j, u) && v in d'.scc && Edge(g, u, v) {
        VisitCovered(g, d, p, x, kids, j, u, v);
      }
    }
  }

  /** Visiting keeps the invariant. */
  lemma VisitInv(g: Graph, d: Dfs, p: Path, x: Lit, kids: seq<Lit>)
    requires CanVisit(g, d, p, x, kids)
    ensures Inv(g, Visited(d, x, kids), Waiting(d, p, x))
  {
    VisitStack(g, d, p, x, kids);
    VisitLow(g, d, p, x, kids);
    VisitReach(g, d, p, x, kids);
    VisitWork(g, d, p, x, kids);
    VisitKids(g, d, p, x, kids);
    VisitSegments(g, d, p, x, kids);
    hide StackOk, GrayOk, LowOk, GrayReach, BlackDone, WorkOk, KidsOk, SegmentsOk, CanVisit;
  }

  // ----- a waiting literal is processed -----

  /** All children of x were visited; n is the smallest number among its own and the minima of its children. */
  ghost predicate CanFinish(g: Graph, d: Dfs, p: Path, x: Lit, n: nat) {
    && Inv(g, d, p) && d.work != [] && p.pos != [] && p.pos[|p.pos| - 1] == |d.work| - 1 && x == d.work[|d.work| - 1]
    && n <= Idx(d, x) && LowReached(g, d, x, n)
    && (forall c | c in d.scc && Edge(g, x, c) :: n <= Low(d, c))
  }

  function Shorter(p: Path): (r: Path)
    requires p.gray != [] && p.pos != []
  {
    Path(p.gray[..|p.gray| - 1], p.pos[..|p.pos| - 1])
  }

  lemma FinishFacts(g: Graph, d: Dfs, p: Path, x: Lit, n: nat)
    requires CanFinish(g, d, p, x, n)
    ensures p.gray != [] && x == p.gray[|p.gray| - 1] && x in d.scc && |p.pos| == |p.gray|
    ensures forall c | Edge(g, x, c) :: Idx(d, c) > 0
    ensures forall j | 0 <= j < |p.gray| - 1 :: Idx(d, p.gray[j]) < Idx(d, x) && p.gray[j] != x
    ensures forall u :: u in Shorter(p).gray <==> u in p.gray && u != x
  {
    hide LowOk, GrayReach, BlackDone, SegmentsOk;
    var m := |p.gray|;
    assert Positions(d, p);
    forall c | Edge(g, x, c) ensures Idx(d, c) > 0 {
      assert KidAt(g, d, p, m - 1, c);
    }
    assert p.gray == Shorter(p).gray + [x];
  }

  lemma FinishWork(g: Graph, d: Dfs, d': Dfs, p: Path, x: Lit, n: nat)
    requires CanFinish(g, d, p, x, n) && d'.work == Popped(d).work && d'.idx == d.idx && p.gray != []
    ensures WorkOk(g, d', Shorter(p)) && KidsOk(g, d', Shorter(p))
  {
    FinishFacts(g, d, p, x, n);
    assert StackAt(g, d, x);
    assert Idx(d, x) > 0;
    hide StackOk, GrayOk, LowOk, GrayReach, BlackDone, SegmentsOk;
    var p' := Shorter(p);
    assert Positions(d', p') by {
      assert p'.gray == [] ==> |p.gray| == 1 && p.pos[0] == 0;
    }
    assert TreeEdges(g, p');
    forall j: nat, i: nat ensures ChildAt(g, d', p', j, i) {
      assert ChildAt(g, d, p, j, i);
    }
    forall j: nat, i: nat ensures TopmostAt(d', p', j, i) {
      assert TopmostAt(d, p, j, i);
    }
    forall j: nat, c: Lit ensures KidAt(g, d', p', j, c) {
      assert KidAt(g, d, p, j, c);
      if j < |p'.gray| && Edge(g, p.gray[j], c) && Idx(d, c) == 0 {
        var i :| p.pos[j] < i < |d.work| && d.work[i] == c;
        assert d'.work[i] == c;
      }
    }
  }

  // ----- it is not the entry of its component -----

  function Finished(d: Dfs, x: Lit, n: nat): (r: Dfs)
    requires d.work != []
  {
    Popped(d).(low := d.low[x := n])
  }

  /** Something smaller waits below. */
  lemma NotTheFirst(g: Graph, d: Dfs, p: Path, x: Lit, n: nat)
    requires CanFinish(g, d, p, x, n) && n < Idx(d, x)
    ensures |p.gray| >= 2
  {
    FinishFacts(g, d, p, x, n);
    hide LowOk, GrayReach, BlackDone, SegmentsOk, WorkOk, KidsOk;
    var w :| w in d.scc && Idx(d, w) == n && Reach(g, x, w);
    var i :| 0 <= i < |d.scc| && d.scc[i] == w;
    assert Idx(d, d.scc[0]) <= Idx(d, w);
  }

  lemma FinishLow(g: Graph, d: Dfs, p: Path, x: Lit, n: nat)
    requires CanFinish(g, d, p, x, n) && n < Idx(d, x) && p.gray != []
    ensures LowOk(g, Finished(d, x, n), Shorter(p))
  {
    FinishFacts(g, d, p, x, n);
    hide StackOk, GrayOk, GrayReach, BlackDone, SegmentsOk, WorkOk, KidsOk;
    var d', p' := Finished(d, x, n), Shorter(p);
    forall l: Lit ensures LowAt(g, d', p', l) {
      assert LowAt(g, d, p, l);
      if l in d.scc {
        assert l != x ==> Low(d', l) == Low(d, l);
        ReachedSame(g, d, d', l, Low(d', l));
      }
    }
  }

  lemma FinishStack(g: Graph, d: Dfs, p: Path, x: Lit, n: nat)
    requires CanFinish(g, d, p, x, n) && n < Idx(d, x) && p.gray != []
    ensures var d', p' := Finished(d, x, n), Shorter(p);
            StackOk(g, d') && GrayOk(d', p') && GrayReach(g, d', p') && BlackDone(g, d', p')
  {
    FinishFacts(g, d, p, x, n);
    NotTheFirst(g, d, p, x, n);
    hide LowOk, SegmentsOk, WorkOk, KidsOk;
    var d', p' := Finished(d, x, n), Shorter(p);
    CalmStack(g, d, d', p);
    hide StackOk;
    assert GrayOk(d', p');
    forall j: nat, u: Lit ensures GrayReachAt(g, d', p', j, u) {
      assert GrayReachAt(g, d', p, j, u);
    }
    forall u: Lit, v: Lit ensures BlackDoneAt(g, d', p', u, v) {
      assert BlackDoneAt(g, d', p, u, v);
      assert Idx(d', v) == Idx(d, v);
    }
  }

  /** The finished literal itself accounts for what lies above it. */
  lemma FinishCovered(g: Graph, d: Dfs, p: Path, x: Lit, n: nat, u: Lit, v: Lit)
    requires CanFinish(g, d, p, x, n) && n < Idx(d, x) && |p.gray| >= 2
    requires (u == x || InSegment(d, p, |p.gray| - 1, u)) && v in d.scc && Edge(g, u, v)
    ensures Covered(g, Finished(d, x, n), Shorter(p), |p.gray| - 2, v)
  {
    FinishFacts(g, d, p, x, n);
    var d', p' := Finished(d, x, n), Shorter(p);
    var m := |p.gray|;
    assert Edge(g, p.gray[m - 2], x) by {
      assert TreeEdges(g, p);
      assert Edge(g, p.gray[m - 2], p.gray[m - 2 + 1]);
    }
    hide StackOk, GrayOk, GrayReach, BlackDone, WorkOk, KidsOk;
    assert n <= Idx(d, v) by {
      if u == x {
        assert LowAt(g, d, p, v);
      } else {
        assert SegmentAt(g, d, p, m - 1, u, v);
        var c :| Black(d, p, c) && Edge(g, x, c) && Low(d, c) <= Idx(d, v);
      }
    }
    assert Black(d', p', x) && Low(d', x) == n && Idx(d', v) == Idx(d, v);
    assert p'.gray[m - 2] == p.gray[m - 2];
  }

  lemma FinishSegments(g: Graph, d: Dfs, p: Path, x: Lit, n: nat)
    requires CanFinish(g, d, p, x, n) && n < Idx(d, x) && |p.gray| >= 2
    ensures SegmentsOk(g, Finished(d, x, n), Shorter(p))
  {
    FinishFacts(g, d, p, x, n);
    var d', p' := Finished(d, x, n), Shorter(p);
    var m := |p.gray|;
    assert forall l :: Idx(d', l) == Idx(d, l);
    hide StackOk, LowOk, GrayReach, BlackDone, WorkOk, KidsOk;
    forall j: nat, u: Lit, v: Lit ensures SegmentAt(g, d', p', j, u, v) {
      if InSegment(d', p', j, u) && v in d.scc && Edge(g, u, v) {
        if j == m - 2 && Idx(d, u) >= Idx(d, x) {
          SameIndex(g, d, u, x);
          FinishCovered(g, d, p, x, n, u, v);
        } else {
          FinishOld(g, d, p, x, n, j, u, v);
        }
      }
    }
  }

  lemma SameIndex(g: Graph, d: Dfs, u: Lit, x: Lit)
    requires Increasing(d, d.scc) && u in d.scc && x in d.scc
    ensures Idx(d, u) == Idx(d, x) ==> u == x
  {
    var i :| 0 <= i < |d.scc| && d.scc[i] == u;
    var j :| 0 <= j < |d.scc| && d.scc[j] == x;
  }

  lemma FinishOld(g: Graph, d: Dfs, p: Path, x: Lit, n: nat, j: nat, u: Lit, v: Lit)
    requires CanFinish(g, d, p, x, n) && n < Idx(d, x) && |p.gray| >= 2
    requires InSegment(Finished(d, x, n), Shorter(p), j, u) && v in d.scc && Edge(g, u, v)
    requires j < |p.gray| - 2 || Idx(d, u) < Idx(d, x)
    ensures Covered(g, Finished(d, x, n), Shorter(p), j, v)
  {
    FinishFacts(g, d, p, x, n);
    var d', p' := Finished(d, x, n), Shorter(p);
    var m := |p.gray|;
    assert forall l :: Idx(d', l) == Idx(d, l);
    assert LowAt(g, d, p, x);
    hide StackOk, LowOk, GrayReach, BlackDone, WorkOk, KidsOk, GrayOk;
    assert u != x;
    assert InSegment(d, p, j, u);
    assert SegmentAt(g, d, p, j, u, v);
    var c :| Black(d, p, c) && Edge(g, p.gray[j], c) && Low(d, c) <= Idx(d, v);
    assert Black(d', p', c) && Low(d', c) <= Low(d, c) && p'.gray[j] == p.gray[j];
  }

  /** Processing a literal inside a component keeps the invariant. */
  lemma FinishInv(g: Graph, d: Dfs, p: Path, x: Lit, n: nat)
    requires CanFinish(g, d, p, x, n) && n < Idx(d, x) && p.gray != []
    ensures Inv(g, Finished(d, x, n), Shorter(p))
  {
    NotTheFirst(g, d, p, x, n);
    FinishWork(g, d, Finished(d, x, n), p, x, n);
    FinishLow(g, d, p, x, n);
    FinishStack(g, d, p, x, n);
    FinishSegments(g, d, p, x, n);
    hide StackOk, GrayOk, LowOk, GrayReach, BlackDone, WorkOk, KidsOk, SegmentsOk, CanFinish;
  }

  // ----- it is the entry of its component -----

  /** x, at position k of the component stack, is the entry. */
  ghost predicate CanClose(g: Graph, d: Dfs, p: Path, x: Lit, k: nat) {
    CanFinish(g, d, p, x, Idx(d, x)) && k < |d.scc| && d.scc[k] == x && p.gray != []
  }

  function Closed(d: Dfs, k: nat): (r: Dfs)
    requires d.work != [] && k < |d.scc|
  {
    Popped(d).(scc := d.scc[..k], done := d.done + ToSet(d.scc[k..]))
  }

  lemma AboveEntry(g: Graph, d: Dfs, k: nat, u: Lit)
    requires Increasing(d, d.scc) && k < |d.scc| && u in d.scc
    ensures u in d.scc[k..] <==> Idx(d, u) >= Idx(d, d.scc[k])
    ensures u in d.scc[..k] <==> Idx(d, u) < Idx(d, d.scc[k])
  {
    var i :| 0 <= i < |d.scc| && d.scc[i] == u;
    if i >= k {
      assert d.scc[k..][i - k] == u;
    } else {
      assert d.scc[..k][i] == u;
    }
    forall j | 0 <= j < |d.scc| && d.scc[j] == u ensures j == i {
    }
  }

  /** No edge leaves the component for something that is not traversed. */
  lemma ComponentClosed(g: Graph, d: Dfs, p: Path, x: Lit, k: nat)
    requires CanClose(g, d, p, x, k)
    ensures ClosedSet(g, Closed(d, k).done)
  {
    FinishFacts(g, d, p, x, Idx(d, x));
    var c := d.scc[k..];
    var m := |p.gray|;
    forall u, v | u in Closed(d, k).done && Edge(g, u, v) ensures v in Closed(d, k).done {
      if u in d.done {
        assert ClosedSet(g, d.done);
      } else {
        assert u in c && u in d.scc;
        AboveEntry(g, d, k, u);
        ComponentEdge(g, d, p, x, k, u, v);
      }
    }
  }

  lemma ComponentEdge(g: Graph, d: Dfs, p: Path, x: Lit, k: nat, u: Lit, v: Lit)
    requires CanClose(g, d, p, x, k) && u in d.scc && Idx(d, u) >= Idx(d, x) && Edge(g, u, v)
    ensures v in Closed(d, k).done
  {
    FinishFacts(g, d, p, x, Idx(d, x));
    var m := |p.gray|;
    assert Increasing(d, d.scc);
    SameIndex(g, d, u, x);
    if u != x {
      GrayBelow(d, p, x, u);
      assert BlackDoneAt(g, d, p, u, v);
    }
    assert StackAt(g, d, v);
    if v !in d.done {
      AboveEntry(g, d, k, v);
      assert LowAt(g, d, p, v);
      if u != x {
        assert SegmentAt(g, d, p, m - 1, u, v);
        assert InSegment(d, p, m - 1, u);
        var c :| Black(d, p, c) && Edge(g, p.gray[m - 1], c) && Low(d, c) <= Idx(d, v);
      }
    }
  }

  lemma GrayBelow(d: Dfs, p: Path, x: Lit, u: Lit)
    requires Increasing(d, p.gray) && p.gray != [] && x == p.gray[|p.gray| - 1] && Idx(d, u) > Idx(d, x)
    ensures u !in p.gray
  {
  }

  /** Everything above the entry reaches it. */
  lemma {:induction false} ComponentReach(g: Graph, d: Dfs, p: Path, x: Lit, k: nat, u: Lit)
    requires CanClose(g, d, p, x, k) && u in d.scc && Idx(d, u) >= Idx(d, x)
    ensures Reach(g, u, x)
    decreases Idx(d, u)
  {
    FinishFacts(g, d, p, x, Idx(d, x));
    SameIndex(g, d, u, x);
    if u == x {
      assert StackAt(g, d, x);
      ReachSelf(g, x);
    } else {
      GrayBelow(d, p, x, u);
      assert LowAt(g, d, p, u);
      var w :| w in d.scc && Idx(d, w) == Low(d, u) && Reach(g, u, w);
      ComponentClosed(g, d, p, x, k);
      AboveEntry(g, d, k, u);
      ReachClosed(g, Closed(d, k).done, u, w);
      assert StackAt(g, d, w);
      AboveEntry(g, d, k, w);
      ComponentReach(g, d, p, x, k, w);
      ReachTrans(g, u, w, x);
    }
  }

  /** What is popped is exactly the strongly connected component of the entry. */
  lemma ComponentExact(g: Graph, d: Dfs, p: Path, x: Lit, k: nat, u: Lit)
    requires CanClose(g, d, p, x, k)
    ensures u in d.scc[k..] <==> Mutual(g, x, u)
  {
    FinishFacts(g, d, p, x, Idx(d, x));
    var m := |p.gray|;
    assert StackAt(g, d, x);
    if u in d.scc[k..] {
      assert u in d.scc;
      AboveEntry(g, d, k, u);
      ComponentReach(g, d, p, x, k, u);
      assert GrayReachAt(g, d, p, m - 1, u);
    }
    if Mutual(g, x, u) {
      ComponentClosed(g, d, p, x, k);
      AboveEntry(g, d, k, x);
      ReachClosed(g, Closed(d, k).done, x, u);
      if u in d.done {
        ReachClosed(g, d.done, u, x);
      }
    }
  }

  lemma CloseStack(g: Graph, d: Dfs, p: Path, x: Lit, k: nat)
    requires CanClose(g, d, p, x, k)
    ensures StackOk(g, Closed(d, k))
  {
    ComponentClosed(g, d, p, x, k);
    hide LowOk, GrayReach, BlackDone, WorkOk, KidsOk, SegmentsOk, GrayOk, ClosedSet;
    var d' := Closed(d, k);
    forall l: Lit ensures StackAt(g, d', l) {
      assert StackAt(g, d, l);
      CloseStackAt(g, d, k, l);
    }
    assert Increasing(d', d'.scc);
  }

  lemma CloseStackAt(g: Graph, d: Dfs, k: nat, l: Lit)
    requires Increasing(d, d.scc) && k < |d.scc| && d.work != [] && StackAt(g, d, l)
    ensures StackAt(g, Closed(d, k), l)
  {
    assert Idx(Closed(d, k), l) == Idx(d, l);
    assert d.scc == d.scc[..k] + d.scc[k..];
    if l in d.scc {
      AboveEntry(g, d, k, l);
    }
  }

  lemma CloseGray(g: Graph, d: Dfs, p: Path, x: Lit, k: nat)
    requires CanClose(g, d, p, x, k)
    ensures GrayOk(Closed(d, k), Shorter(p))
  {
    FinishFacts(g, d, p, x, Idx(d, x));
    assert Increasing(d, d.scc);
    hide StackOk, LowOk, GrayReach, BlackDone, WorkOk, KidsOk, SegmentsOk;
    var d', p' := Closed(d, k), Shorter(p);
    assert forall l :: Idx(d', l) == Idx(d, l);
    forall i | 0 <= i < |p'.gray| ensures p'.gray[i] in d'.scc {
      assert p.gray[i] in d.scc;
      AboveEntry(g, d, k, p.gray[i]);
    }
    assert Increasing(d', p'.gray);
    if d'.scc != [] {
      assert Idx(d, d.scc[0]) < Idx(d, x);
    }
  }

  lemma CloseLow(g: Graph, d: Dfs, p: Path, x: Lit, k: nat)
    requires CanClose(g, d, p, x, k)
    ensures LowOk(g, Closed(d, k), Shorter(p))
  {
    FinishFacts(g, d, p, x, Idx(d, x));
    assert Increasing(d, d.scc);
    hide StackOk, GrayOk, GrayReach, BlackDone, WorkOk, KidsOk, SegmentsOk;
    var d', p' := Closed(d, k), Shorter(p);
    assert forall l :: Idx(d', l) == Idx(d, l) && Low(d', l) == Low(d, l);
    forall l: Lit ensures LowAt(g, d', p', l) {
      assert LowAt(g, d, p, l);
      if l in d'.scc {
        assert l in d.scc;
        AboveEntry(g, d, k, l);
        var w :| w in d.scc && Idx(d, w) == Low(d, l) && Reach(g, l, w);
        AboveEntry(g, d, k, w);
        assert LowReached(g, d', l, Low(d', l));
      }
    }
  }

  lemma CloseReach(g: Graph, d: Dfs, p: Path, x: Lit, k: nat)
    requires CanClose(g, d, p, x, k)
    ensures GrayReach(g, Closed(d, k), Shorter(p)) && BlackDone(g, Closed(d, k), Shorter(p))
  {
    FinishFacts(g, d, p, x, Idx(d, x));
    assert Increasing(d, d.scc);
    hide StackOk, GrayOk, LowOk, WorkOk, KidsOk, SegmentsOk;
    var d', p' := Closed(d, k), Shorter(p);
    assert forall l :: Idx(d', l) == Idx(d, l);
    forall j: nat, u: Lit ensures GrayReachAt(g, d', p', j, u) {
      assert GrayReachAt(g, d, p, j, u);
    }
    forall u: Lit, v: Lit ensures BlackDoneAt(g, d', p', u, v) {
      assert BlackDoneAt(g, d, p, u, v);
      if u in d'.scc {
        assert u in d.scc;
        AboveEntry(g, d, k, u);
      }
    }
  }

  /** Minima within the component stay within it. */
  lemma LowInside(g: Graph, d: Dfs, p: Path, x: Lit, k: nat, c: Lit)
    requires CanClose(g, d, p, x, k) && c in d.scc[k..] && c in d.scc
    ensures Low(d, c) >= Idx(d, x)
  {
    ComponentClosed(g, d, p, x, k);
    assert LowAt(g, d, p, c);
    var w :| w in d.scc && Idx(d, w) == Low(d, c) && Reach(g, c, w);
    ReachClosed(g, Closed(d, k).done, c, w);
    assert StackAt(g, d, w);
    AboveEntry(g, d, k, w);
  }

  lemma CloseCovered(g: Graph, d: Dfs, p: Path, x: Lit, k: nat, j: nat, u: Lit, v: Lit)
    requires CanClose(g, d, p, x, k) && InSegment(Closed(d, k), Shorter(p), j, u) && v in d.scc[..k] && Edge(g, u, v)
    ensures Covered(g, Closed(d, k), Shorter(p), j, v)
  {
    FinishFacts(g, d, p, x, Idx(d, x));
    var d', p' := Closed(d, k), Shorter(p);
    assert forall l :: Idx(d', l) == Idx(d, l) && Low(d', l) == Low(d, l);
    assert Increasing(d, d.scc);
    hide GrayReach, BlackDone, WorkOk, KidsOk, GrayOk, StackOk, LowOk;
    assert u in d.scc && v in d.scc;
    AboveEntry(g, d, k, u);
    AboveEntry(g, d, k, v);
    assert InSegment(d, p, j, u);
    assert SegmentAt(g, d, p, j, u, v);
    var c :| Black(d, p, c) && Edge(g, p.gray[j], c) && Low(d, c) <= Idx(d, v);
    AboveEntry(g, d, k, c);
    if c in d.scc[k..] {
      LowInside(g, d, p, x, k, c);
    }
    assert Black(d', p', c);
  }

  lemma CloseSegments(g: Graph, d: Dfs, p: Path, x: Lit, k: nat)
    requires CanClose(g, d, p, x, k)
    ensures SegmentsOk(g, Closed(d, k), Shorter(p))
  {
    var d', p' := Closed(d, k), Shorter(p);
    hide CanClose;
    forall j: nat, u: Lit, v: Lit ensures SegmentAt(g, d', p', j, u, v) {
      if InSegment(d', p', j, u) && v in d'.scc && Edge(g, u, v) {
        CloseCovered(g, d, p, x, k, j, u, v);
      }
    }
  }

  /** Completing a component keeps the invariant. */
  lemma CloseInv(g: Graph, d: Dfs, p: Path, x: Lit, k: nat)
    requires CanClose(g, d, p, x, k)
    ensures Inv(g, Closed(d, k), Shorter(p))
  {
    FinishWork(g, d, Closed(d, k), p, x, Idx(d, x));
    CloseStack(g, d, p, x, k);
    CloseGray(g, d, p, x, k);
    CloseLow(g, d, p, x, k);
    CloseReach(g, d, p, x, k);
    CloseSegments(g, d, p, x, k);
    hide StackOk, GrayOk, LowOk, GrayReach, BlackDone, WorkOk, KidsOk, SegmentsOk, CanFinish;
  }
}
