/**
 Equivalent-literal substitution: representatives of the strongly connected
 components of the binary implication graph, and what replacing literals by
 them means.
 */
module Decompose {
  import opened Cnf
  import opened Implications
  import opened Tarjan

  // ----- representatives -----

  /** r is a literal of the component of l with the smallest variable. */
  ghost predicate IsRep(g: Graph, l: Lit, r: Lit) {
    Mutual(g, l, r) && forall w | Mutual(g, l, w) :: r.v <= w.v
  }

  ghost predicate RepAt(g: Graph, frozen: set<nat>, l: Lit, r: Lit) {
    !Mutual(g, l, Neg(l)) && if l.v in frozen then r == l else IsRep(g, l, r)
  }

  /** Frozen literals stand for themselves, all others for their component. */
  ghost predicate RepsOk(g: Graph, frozen: set<nat>, reprs: map<Lit, Lit>, done: set<Lit>) {
    && reprs.Keys == done
    && forall l | l in done :: RepAt(g, frozen, l, reprs[l])
  }

  lemma MutualSelf(g: Graph, l: Lit)
    requires l in g
    ensures Mutual(g, l, l)
  {
    ReachSelf(g, l);
  }

  lemma RepUnique(g: Graph, l: Lit, r: Lit, s: Lit)
    requires IsRep(g, l, r) && IsRep(g, l, s) && !Mutual(g, r, Neg(r))
    ensures r == s
  {
    MutualTrans(g, r, l, s);
    assert r.v == s.v;
    assert s == r || s == Neg(r);
  }

  /** A literal and its representative are in one component, hence equivalent. */
  lemma RepMutual(g: Graph, frozen: set<nat>, reprs: map<Lit, Lit>, l: Lit)
    requires RepsOk(g, frozen, reprs, g.Keys) && l in g
    ensures Mutual(g, l, reprs[l]) && reprs[l] in g
  {
    assert RepAt(g, frozen, l, reprs[l]);
    MutualSelf(g, l);
    ReachIn(g, l, reprs[l]);
  }

  /** Representatives represent themselves. */
  lemma RepIdempotent(g: Graph, frozen: set<nat>, reprs: map<Lit, Lit>, l: Lit)
    requires RepsOk(g, frozen, reprs, g.Keys) && l in g
    ensures reprs[l] in g && reprs[reprs[l]] == reprs[l]
  {
    RepMutual(g, frozen, reprs, l);
    var r := reprs[l];
    RepMutual(g, frozen, reprs, r);
    assert RepAt(g, frozen, l, r) && RepAt(g, frozen, r, reprs[r]);
    if l.v !in frozen && r.v !in frozen {
      forall w | Mutual(g, r, w) ensures r.v <= w.v {
        MutualTrans(g, l, r, w);
      }
      MutualSelf(g, r);
      assert IsRep(g, r, r);
      RepUnique(g, r, r, reprs[r]);
    }
  }

  lemma RepOfNegation(g: Graph, l: Lit, r: Lit)
    requires Skew(g) && IsRep(g, l, r)
    ensures IsRep(g, Neg(l), Neg(r))
  {
    hide Reach, Skew;
    MutualSkew(g, l, r);
    forall w | Mutual(g, Neg(l), w) ensures Neg(r).v <= w.v {
      MutualSkew(g, Neg(l), w);
      assert Neg(Neg(l)) == l;
    }
  }

  /** The representative of the negation is the negation of the representative. */
  lemma RepNegation(g: Graph, frozen: set<nat>, reprs: map<Lit, Lit>, l: Lit)
    requires Skew(g) && RepsOk(g, frozen, reprs, g.Keys) && l in g
    ensures Neg(l) in g && reprs[Neg(l)] == Neg(reprs[l])
  {
    RepNotContradictory(g, frozen, reprs, l);
    assert RepAt(g, frozen, l, reprs[l]) && RepAt(g, frozen, Neg(l), reprs[Neg(l)]);
    hide Reach, Mutual, Skew;
    if l.v !in frozen {
      RepOfNegation(g, l, reprs[l]);
      RepUnique(g, Neg(l), reprs[Neg(l)], Neg(reprs[l]));
    }
  }

  lemma RepNotContradictory(g: Graph, frozen: set<nat>, reprs: map<Lit, Lit>, l: Lit)
    requires Skew(g) && RepsOk(g, frozen, reprs, g.Keys) && l in g
    ensures Neg(l) in g && !Mutual(g, reprs[Neg(l)], Neg(reprs[Neg(l)]))
  {
    RepMutual(g, frozen, reprs, Neg(l));
    var s := reprs[Neg(l)];
    assert RepAt(g, frozen, s, reprs[s]);
  }

  // ----- the search -----

  /** `new_min`: the smallest minimum among the literal and its children. */
  method NewMin(g: Graph, d: Dfs, x: Lit) returns (n: nat)
    requires x in g && (forall l: Lit :: StackAt(g, d, l)) && forall c | Edge(g, x, c) :: Idx(d, c) > 0
    ensures n <= Low(d, x) && forall c | c in d.scc && Edge(g, x, c) :: n <= Low(d, c)
    ensures n == Low(d, x) || exists c | c in d.scc && Edge(g, x, c) :: n == Low(d, c)
  {
    n := Low(d, x);
    var ws := g[x];
    for k := 0 to |ws|
      invariant n <= Low(d, x) && forall i | 0 <= i < k && ws[i] in d.scc && ws[i] in g :: n <= Low(d, ws[i])
      invariant n == Low(d, x) || exists c | c in d.scc && Edge(g, x, c) :: n == Low(d, c)
    {
      var child := ws[k];
      if child in g && child !in d.done {
        assert Edge(g, x, child);
        assert StackAt(g, d, child);
        if n > Low(d, child) {
          n := Low(d, child);
        }
      } else {
        assert StackAt(g, d, child);
      }
    }
  }

  lemma MinReached(g: Graph, d: Dfs, p: Path, x: Lit, n: nat)
    requires LowOk(g, d, p) && x in d.scc
    requires n == Low(d, x) || exists c | c in d.scc && Edge(g, x, c) :: n == Low(d, c)
    ensures LowReached(g, d, x, n)
  {
    assert LowAt(g, d, p, x);
    if n != Low(d, x) {
      var c :| c in d.scc && Edge(g, x, c) && n == Low(d, c);
      assert LowAt(g, d, p, c);
      var w :| w in d.scc && Idx(d, w) == n && Reach(g, c, w);
      ReachEdge(g, x, c);
      ReachTrans(g, x, c, w);
    }
  }

  method UnvisitedKids(g: Graph, d: Dfs, x: Lit) returns (kids: seq<Lit>)
    requires x in g
    ensures Kids(g, d, x, kids)
  {
    kids := [];
    var ws := g[x];
    for k := 0 to |ws|
      invariant forall c :: c in kids <==> c in ws[..k] && c in g && c != x && Idx(d, c) == 0
    {
      assert ws[..k + 1] == ws[..k] + [ws[k]];
      var child := ws[k];
      if child in g && child != x && Idx(d, child) == 0 {
        kids := kids + [child];
      }
    }
    assert ws[..|ws|] == ws;
  }

  /** From the top of the component stack down to the entry: the smallest literal, or a contradiction. */
  method ScanComponent(scc: seq<Lit>, parent: Lit) returns (repr: Lit, contradictory: bool, ghost e: nat)
    requires parent in scc && Distinct(scc)
    ensures e < |scc| && scc[e] == parent
    ensures contradictory <==> Neg(parent) in scc[e..]
    ensures !contradictory ==> repr in scc[e..] && forall l | l in scc[e..] :: repr.v <= l.v
  {
    e :| 0 <= e < |scc| && scc[e] == parent;
    repr, contradictory := parent, false;
    var k := |scc|;
    while true
      invariant e < k <= |scc| && (repr == parent || repr in scc[k..]) && !contradictory
      invariant forall i | k <= i < |scc| :: scc[i] != Neg(parent) && repr.v <= scc[i].v
      invariant repr.v <= parent.v
      decreases k
    {
      k := k - 1;
      var other := scc[k];
      if other == Neg(parent) {
        contradictory := true;
        assert scc[e..][k - e] == Neg(parent);
        return;
      }
      if other.v < repr.v {
        repr := other;
      }
      assert scc[k..] == [other] + scc[k + 1..];
      if other == parent {
        break;
      }
    }
    assert k == e && scc[e..][0] == parent;
    forall l | l in scc[e..] ensures repr.v <= l.v && l != Neg(parent) {
      var i :| 0 <= i < |scc[e..]| && scc[e..][i] == l;
      assert scc[e + i] == l;
    }
  }

  /** The component is popped and its literals get their representatives. */
  method PopComponent(scc: seq<Lit>, parent: Lit, repr: Lit, frozen: set<nat>, reprs: map<Lit, Lit>, ghost e: nat)
      returns (scc': seq<Lit>, reprs': map<Lit, Lit>, component: set<Lit>)
    requires e < |scc| && scc[e] == parent && Distinct(scc)
    ensures scc' == scc[..e] && component == ToSet(scc[e..])
    ensures reprs'.Keys == reprs.Keys + component
    ensures forall l | l in reprs' :: reprs'[l] == if l !in component then reprs[l] else if l.v in frozen then l else repr
  {
    scc', reprs', component := scc, reprs, {};
    while true
      invariant e < |scc'| <= |scc| && scc' == scc[..|scc'|] && component == ToSet(scc[|scc'|..])
      invariant reprs'.Keys == reprs.Keys + component
      invariant forall l | l in reprs' :: reprs'[l] == if l !in component then reprs[l] else if l.v in frozen then l else repr
      decreases |scc'|
    {
      var n := |scc'| - 1;
      var other := scc'[n];
      assert scc[n..] == [other] + scc[n + 1..];
      scc' := scc'[..n];
      component := component + {other};
      reprs' := reprs'[other := if other.v in frozen then other else repr];
      if other == parent {
        break;
      }
    }
  }

  lemma SccDistinct(g: Graph, d: Dfs)
    requires StackOk(g, d)
    ensures Distinct(d.scc)
  {
  }

  /** All literals of the complete component have the right representative. */
  lemma ComponentReps(g: Graph, frozen: set<nat>, d: Dfs, p: Path, x: Lit, e: nat, repr: Lit, reprs: map<Lit, Lit>, reprs': map<Lit, Lit>)
    requires Skew(g) && CanClose(g, d, p, x, e) && RepsOk(g, frozen, reprs, d.done)
    requires Neg(x) !in d.scc[e..] && repr in d.scc[e..] && forall l | l in d.scc[e..] :: repr.v <= l.v
    requires reprs'.Keys == reprs.Keys + ToSet(d.scc[e..])
    requires forall l | l in reprs' :: reprs'[l] == if l !in d.scc[e..] then reprs[l] else if l.v in frozen then l else repr
    ensures RepsOk(g, frozen, reprs', Closed(d, e).done)
  {
    forall l ensures l in d.scc[e..] <==> Mutual(g, x, l) {
      ComponentExact(g, d, p, x, e, l);
    }
    hide CanClose;
    forall l | l in Closed(d, e).done ensures RepAt(g, frozen, l, reprs'[l]) {
      if l in d.scc[e..] {
        MemberRep(g, frozen, d.scc[e..], x, l, repr);
      } else {
        assert RepAt(g, frozen, l, reprs[l]);
      }
    }
  }

  lemma MemberRep(g: Graph, frozen: set<nat>, c: seq<Lit>, x: Lit, l: Lit, repr: Lit)
    requires Skew(g) && (forall u :: u in c <==> Mutual(g, x, u)) && l in c
    requires Neg(x) !in c && repr in c && forall u | u in c :: repr.v <= u.v
    ensures RepAt(g, frozen, l, if l.v in frozen then l else repr)
  {
    assert Mutual(g, l, x);
    MutualTrans(g, l, x, repr);
    forall w | Mutual(g, l, w) ensures repr.v <= w.v {
      MutualTrans(g, x, l, w);
    }
    if Mutual(g, l, Neg(l)) {
      Contradictory(g, l, x);
    }
  }

  /** What is on top of the working stack: a waiting literal, or a stale entry of a processed one. */
  lemma TopCases(g: Graph, d: Dfs, p: Path)
    requires Inv(g, d, p) && d.work != []
    ensures var x := d.work[|d.work| - 1];
            && x in g
            && (Idx(d, x) == 0 || x in d.done ==> StaleTop(d, p))
            && (Idx(d, x) > 0 && x !in d.done ==> x in d.scc)
            && (x in d.scc && StaleTop(d, p) ==> Black(d, p, x))
            && (!StaleTop(d, p) ==> p.gray != [] && p.pos != [] && p.pos[|p.pos| - 1] == |d.work| - 1 && x == p.gray[|p.gray| - 1])
            && (x in d.scc ==> forall c | Edge(g, x, c) :: Idx(d, c) > 0)
  {
    var n := |d.work| - 1;
    var x := d.work[n];
    assert StackAt(g, d, x);
    assert Positions(d, p);
    hide LowOk, GrayReach, SegmentsOk;
    if !StaleTop(d, p) {
      assert p.gray[|p.gray| - 1] in d.scc;
      forall c | Edge(g, x, c) ensures Idx(d, c) > 0 {
        assert KidAt(g, d, p, |p.gray| - 1, c);
      }
    } else {
      forall j | 0 <= j < |p.gray| ensures p.gray[j] != x {
        assert TopmostAt(d, p, j, n);
      }
      forall c | Edge(g, x, c) ensures x in d.scc ==> Idx(d, c) > 0 {
        assert BlackDoneAt(g, d, p, x, c);
      }
    }
  }

  ghost function Unvisited(g: Graph, d: Dfs): (r: set<Lit>) {
    set l | l in g && Idx(d, l) == 0
  }

  /** A literal is visited, or the top of the working stack, which was, is popped. */
  ghost predicate Progress(g: Graph, d: Dfs, d': Dfs)
    requires d.work != []
  {
    || (Unvisited(g, d') < Unvisited(g, d) && d.work <= d'.work)
    || (d'.idx == d.idx && d'.work == d.work[..|d.work| - 1] && Idx(d, d.work[|d.work| - 1]) > 0)
  }

  lemma InvStack(g: Graph, d: Dfs, p: Path)
    requires Inv(g, d, p)
    ensures StackOk(g, d) && (forall l: Lit :: StackAt(g, d, l)) && LowOk(g, d, p)
  {
    hide LowOk, GrayReach, BlackDone, SegmentsOk, WorkOk, KidsOk, GrayOk;
  }

  lemma InvMin(g: Graph, d: Dfs, p: Path, x: Lit, n: nat)
    requires Inv(g, d, p) && d.work != [] && x == d.work[|d.work| - 1] && x in d.scc
    requires n <= Low(d, x) && forall c | c in d.scc && Edge(g, x, c) :: n <= Low(d, c)
    requires n == Low(d, x) || exists c | c in d.scc && Edge(g, x, c) :: n == Low(d, c)
    ensures LowReached(g, d, x, n) && n <= Idx(d, x)
    ensures StaleTop(d, p) ==> Black(d, p, x) && n < Idx(d, x)
    ensures !StaleTop(d, p) ==> p.gray != [] && CanFinish(g, d, p, x, n)
  {
    TopCases(g, d, p);
    MinReached(g, d, p, x, n);
    assert LowAt(g, d, p, x);
    hide LowOk, GrayReach, BlackDone, SegmentsOk, WorkOk, KidsOk, GrayOk, StackOk;
  }

  lemma VisitProgress(g: Graph, d: Dfs, x: Lit, kids: seq<Lit>)
    requires x in g && Idx(d, x) == 0 && d.work != []
    ensures Progress(g, d, Visited(d, x, kids)) && forall l :: Idx(d, l) > 0 ==> Idx(Visited(d, x, kids), l) > 0
  {
    var d' := Visited(d, x, kids);
    assert forall l | l != x :: Idx(d', l) == Idx(d, l);
    assert x in Unvisited(g, d) && x !in Unvisited(g, d');
  }

  lemma RepsKeys(g: Graph, frozen: set<nat>, reprs: map<Lit, Lit>, done: set<Lit>)
    requires RepsOk(g, frozen, reprs, done)
    ensures reprs.Keys == done
  {
  }

  /** One round of the inner loop. */
  method Process(g: Graph, frozen: set<nat>, d: Dfs, ghost p: Path, reprs: map<Lit, Lit>)
      returns (d': Dfs, ghost p': Path, reprs': map<Lit, Lit>, contradiction: Option<Lit>)
    requires Skew(g) && Inv(g, d, p) && d.work != [] && RepsOk(g, frozen, reprs, d.done)
    ensures contradiction.Some? ==> Mutual(g, contradiction.value, Neg(contradiction.value))
    ensures contradiction.None? ==> Inv(g, d', p') && RepsOk(g, frozen, reprs', d'.done)
    ensures forall l :: Idx(d, l) > 0 ==> Idx(d', l) > 0
    ensures contradiction.None? ==> Progress(g, d, d')
  {
    hide Skew, Inv, RepsOk, Mutual;
    TopCases(g, d, p);
    var n := |d.work| - 1;
    var parent := d.work[n];
    d', p', reprs', contradiction := d, p, reprs, None;
    if parent in d.done {
      InvStack(g, d, p);
      assert StackAt(g, d, parent);
      d' := Popped(d);
      PopInv(g, d, d', p, parent, 0);
    } else if Idx(d, parent) > 0 {
      InvStack(g, d, p);
      var min := NewMin(g, d, parent);
      InvMin(g, d, p, parent, min);
      if Idx(d, parent) == min {
        SccDistinct(g, d);
        var repr, contradictory, e := ScanComponent(d.scc, parent);
        if contradictory {
          ComponentExact(g, d, p, parent, e, Neg(parent));
          contradiction := Some(parent);
        } else {
          var scc', component;
          scc', reprs', component := PopComponent(d.scc, parent, repr, frozen, reprs, e);
          RepsKeys(g, frozen, reprs, d.done);
          ComponentReps(g, frozen, d, p, parent, e, repr, reprs, reprs');
          CloseInv(g, d, p, parent, e);
          d' := Popped(d).(scc := scc', done := d.done + component);
          p' := Shorter(p);
        }
      } else {
        d' := Popped(d).(low := d.low[parent := min]);
        if StaleTop(d, p) {
          PopInv(g, d, d', p, parent, min);
        } else {
          FinishInv(g, d, p, parent, min);
          p' := Shorter(p);
        }
      }
    } else {
      var kids := UnvisitedKids(g, d, parent);
      VisitInv(g, d, p, parent, kids);
      VisitProgress(g, d, parent, kids);
      d', p' := Visited(d, parent, kids), Waiting(d, p, parent);
    }
  }

  lemma StartInv(g: Graph, d: Dfs, root: Lit)
    requires Inv(g, d, Path([], [])) && d.work == [] && root in g
    ensures Inv(g, d.(work := [root]), Path([], []))
  {
    var p := Path([], []);
    var d' := d.(work := [root]);
    CalmStack(g, d, d', p);
    CalmLow(g, d, d', p, root, 0);
    CalmSegments(g, d, d', p);
    hide StackOk, GrayOk, LowOk, GrayReach, BlackDone, SegmentsOk;
  }

  lemma EmptyInv(g: Graph)
    ensures Inv(g, Dfs(map[], map[], {}, [], [], 0), Path([], []))
  {
  }

  /** With an empty working stack nothing waits, and all visited literals are traversed. */
  lemma EndInv(g: Graph, d: Dfs, p: Path)
    requires Inv(g, d, p) && d.work == []
    ensures p == Path([], []) && d.scc == [] && forall l :: Idx(d, l) > 0 ==> l in d.done
  {
    assert Positions(d, p);
    forall l ensures Idx(d, l) > 0 ==> l in d.done {
      assert StackAt(g, d, l);
    }
  }

  /** The search from one root. */
  method SearchRoot(g: Graph, frozen: set<nat>, d: Dfs, reprs: map<Lit, Lit>, root: Lit)
      returns (d': Dfs, reprs': map<Lit, Lit>, contradiction: Option<Lit>)
    requires Skew(g) && Inv(g, d, Path([], [])) && d.work == [] && RepsOk(g, frozen, reprs, d.done) && root in g
    ensures contradiction.Some? ==> Mutual(g, contradiction.value, Neg(contradiction.value))
    ensures contradiction.None? ==> Inv(g, d', Path([], [])) && d'.work == [] && RepsOk(g, frozen, reprs', d'.done)
    ensures contradiction.None? ==> root in d'.done && d.done <= d'.done
  {
    hide Skew, Inv, RepsOk, Mutual;
    StartInv(g, d, root);
    EndInv(g, d, Path([], []));
    d', reprs', contradiction := d.(work := [root]), reprs, None;
    ghost var p := Path([], []);
    DoneVisited(g, d, Path([], []));
    while d'.work != []
      invariant Inv(g, d', p) && RepsOk(g, frozen, reprs', d'.done) && contradiction.None?
      invariant (d'.work != [] && d'.work[0] == root) || Idx(d', root) > 0
      invariant forall l | l in d.done :: Idx(d', l) > 0
      decreases |Unvisited(g, d')|, |d'.work|
    {
      ghost var d0 := d';
      d', p, reprs', contradiction := Process(g, frozen, d', p, reprs');
      if contradiction.Some? {
        return;
      }
      if Unvisited(g, d') < Unvisited(g, d0) {
        SmallerSet(Unvisited(g, d'), Unvisited(g, d0));
      } else {
        assert Unvisited(g, d') == Unvisited(g, d0);
      }
    }
    EndInv(g, d', p);
  }

  lemma DoneVisited(g: Graph, d: Dfs, p: Path)
    requires Inv(g, d, p)
    ensures forall l | l in d.done :: Idx(d, l) > 0
  {
    InvStack(g, d, p);
    forall l | l in d.done ensures Idx(d, l) > 0 {
      assert StackAt(g, d, l);
    }
  }

  lemma SmallerSet(a: set<Lit>, b: set<Lit>)
    requires a < b
    ensures |a| < |b|
  {
    assert b == a + (b - a);
    assert b - a != {};
  }

  /**
   The first part of `decompose_round`: either some component is contradictory, or every active
   literal gets the representative of its component.
   */
  method Representatives(g: Graph, frozen: set<nat>, order: seq<Lit>) returns (reprs: map<Lit, Lit>, contradiction: Option<Lit>)
    requires Skew(g) && forall l :: l in order <==> l in g
    ensures contradiction.Some? ==> Mutual(g, contradiction.value, Neg(contradiction.value))
    ensures contradiction.None? ==> RepsOk(g, frozen, reprs, g.Keys)
  {
    hide Inv, Mutual, Skew;
    var d := Dfs(map[], map[], {}, [], [], 0);
    EmptyInv(g);
    reprs, contradiction := map[], None;
    for k := 0 to |order|
      invariant Inv(g, d, Path([], [])) && d.work == [] && RepsOk(g, frozen, reprs, d.done) && contradiction.None?
      invariant forall i | 0 <= i < k :: order[i] in d.done
    {
      var root := order[k];
      assert root in order;
      if root !in d.done {
        d, reprs, contradiction := SearchRoot(g, frozen, d, reprs, root);
        if contradiction.Some? {
          return;
        }
      }
    }
    DoneActive(g, d, Path([], []));
    assert d.done == g.Keys;
  }

  lemma DoneActive(g: Graph, d: Dfs, p: Path)
    requires Inv(g, d, p)
    ensures d.done <= g.Keys
  {
    InvStack(g, d, p);
    forall l | l in d.done ensures l in g {
      assert StackAt(g, d, l);
    }
  }
}
