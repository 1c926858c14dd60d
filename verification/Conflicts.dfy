/**
 The graph of conflicting soft literals that `adapt_am1_exact` searches for
 cliques, and which weights a contraction leaves alone.
 */
module Conflicts {
  import opened Cnf
  import opened Objective
  import opened Steps
  import Clique

  // ----- weights that stay -----

  /** Weights of variables up to n other than those of `lits` stayed. */
  ghost predicate Untouched(poids: map<nat, int>, poids': map<nat, int>, n: nat, lits: seq<Lit>) {
    forall k: Lit | k.v <= n && (forall l | l in lits :: l.v != k.v) :: WeightOf(poids', k) == WeightOf(poids, k)
  }

  lemma UntouchedTransitive(p: map<nat, int>, p1: map<nat, int>, p2: map<nat, int>, n: nat, n1: nat, lits: seq<Lit>, lits1: seq<Lit>)
    requires Untouched(p, p1, n, lits) && Untouched(p1, p2, n1, lits1) && n <= n1 && forall l | l in lits1 :: l in lits || l.v > n
    ensures Untouched(p, p2, n, lits)
  {
  }

  lemma UntouchedSelf(p: map<nat, int>, n: nat, lits: seq<Lit>)
    ensures Untouched(p, p, n, lits)
  {
  }

  lemma UntouchedSet(p: map<nat, int>, l: Lit, w: int, n: nat, lits: seq<Lit>)
    requires l in lits || l.v > n
    ensures Untouched(p, SetWeight(p, l, w), n, lits)
  {
  }

  /** A literal of another variable keeps its weight; so does a soft one other than the soft literals given. */
  lemma UntouchedAt(p: map<nat, int>, p': map<nat, int>, n: nat, lits: seq<Lit>, k: Lit)
    requires Untouched(p, p', n, lits) && k.v <= n && k !in lits
    requires WeightOf(p, k) >= 0 && forall l | l in lits :: l.v > n || WeightOf(p, l) > 0
    ensures WeightOf(p', k) == WeightOf(p, k)
  {
    forall l | l in lits ensures l.v != k.v {
      assert l.v != k.v || l == k || l == Neg(k);
    }
  }

  ghost predicate NonNegative(poids: map<nat, int>, lits: seq<Lit>) {
    forall l | l in lits :: WeightOf(poids, l) >= 0
  }

  /** Contracting part of the literals makes none of the others negative. */
  lemma NonNegativePart(p: map<nat, int>, p': map<nat, int>, n: nat, lits: seq<Lit>, part: seq<Lit>)
    requires NonNegative(p, lits) && Untouched(p, p', n, part) && NonNegative(p', part)
    requires (forall l | l in lits :: l.v <= n) && forall l | l in part :: WeightOf(p, l) > 0
    ensures NonNegative(p', lits)
  {
    forall l | l in lits ensures WeightOf(p', l) >= 0 {
      if l !in part {
        UntouchedAt(p, p', n, part, l);
      }
    }
  }

  /** Soft literals that a contraction may return: members of the clique or new ones. */
  ghost predicate Outcome(poids: map<nat, int>, n0: nat, n: nat, lits: seq<Lit>, r: seq<Lit>) {
    Distinct(r) && forall l | l in r :: WeightOf(poids, l) > 0 && l.v <= n && (l in lits || l.v > n0)
  }

  lemma OutcomeMore(p: map<nat, int>, p': map<nat, int>, n0: nat, n: nat, n': nat, clause: seq<Lit>, r: seq<Lit>, l: Lit)
    requires Outcome(p, n0, n, [], r) && n0 <= n <= n' && Untouched(p, p', n, clause) && forall k | k in clause :: k.v <= n0
    requires WeightOf(p', l) > 0 && n < l.v <= n'
    ensures Outcome(p', n0, n', [], r + [l])
  {
    forall k | k in r ensures WeightOf(p', k) > 0 {
      assert WeightOf(p', k) == WeightOf(p, k);
    }
  }

  // ----- the graph -----

  /** The literals at the vertices, which vertices are in use, and the edges. */
  datatype Net = Net(lits: seq<Lit>, active: seq<bool>, conn: Clique.Graph)

  /** The two literals are soft and cannot both be true. */
  ghost predicate Conflict(clauses: set<Clause>, poids: map<nat, int>, k: Lit, l: Lit) {
    k != l && Unsat(clauses, {k, l}) && WeightOf(poids, k) > 0 && WeightOf(poids, l) > 0
  }

  /** A literal at a vertex in use is soft, or was falsified by a unit clause. */
  ghost predicate Placed(clauses: set<Clause>, poids: map<nat, int>, n: nat, l: Lit) {
    l.v <= n && (WeightOf(poids, l) > 0 || (WeightOf(poids, l) == 0 && [Neg(l)] in clauses))
  }

  ghost predicate Sized(net: Net) {
    |net.conn| == |net.lits| == |net.active| && Clique.IsGraph(net.conn)
  }

  ghost predicate Edge(net: Net, a: nat, b: nat) {
    a != b && Clique.Adjacent(net.conn, a, b)
  }

  /** Edges join literals in conflict, and no literal stands at two vertices. */
  ghost predicate Ready(clauses: set<Clause>, poids: map<nat, int>, n: nat, net: Net) {
    && Sized(net)
    && (forall a: nat, b: nat | Edge(net, a, b) && b < |net.lits| ::
          net.active[a] && net.active[b] && Conflict(clauses, poids, net.lits[a], net.lits[b]))
    && (forall a | 0 <= a < |net.lits| && net.active[a] :: Placed(clauses, poids, n, net.lits[a]))
    && (forall a, b | 0 <= a < b < |net.lits| && net.active[a] && net.active[b] :: net.lits[a] != net.lits[b])
  }

  lemma NetSized(clauses: set<Clause>, poids: map<nat, int>, n: nat, net: Net)
    requires Ready(clauses, poids, n, net)
    ensures Sized(net)
  {
  }

  // ----- cliques -----

  function Members(net: Net, q: seq<nat>): (r: seq<Lit>)
    requires forall i | 0 <= i < |q| :: q[i] < |net.lits|
    ensures |r| == |q| && forall i | 0 <= i < |q| :: r[i] == net.lits[q[i]]
  {
    seq(|q|, i requires 0 <= i < |q| => net.lits[q[i]])
  }

  /** The literals of a clique of at least two vertices are soft and pairwise incompatible. */
  lemma CliqueIncompatible(clauses: set<Clause>, poids: map<nat, int>, n: nat, net: Net, q: seq<nat>)
    requires Ready(clauses, poids, n, net) && |q| >= 2
    requires Distinct(q) && Clique.IsClique(net.conn, ToSet(q)) && forall i | 0 <= i < |q| :: q[i] < |net.lits|
    ensures forall i | 0 <= i < |q| :: net.active[q[i]]
    ensures var c := Members(net, q);
            Distinct(c) && PairwiseIncompatible(clauses, c) && forall l | l in c :: WeightOf(poids, l) > 0 && l.v <= n
  {
    var c := Members(net, q);
    forall i, j | 0 <= i < |q| && 0 <= j < |q| && i != j
      ensures net.active[q[i]] && Conflict(clauses, poids, c[i], c[j])
    {
      assert q[i] in ToSet(q) && q[j] in ToSet(q) && q[i] != q[j];
      assert Edge(net, q[i], q[j]);
    }
    forall i | 0 <= i < |q| ensures net.active[q[i]] && WeightOf(poids, c[i]) > 0 && c[i].v <= n {
      var j := if i == 0 then 1 else 0;
      assert Conflict(clauses, poids, c[i], c[j]);
    }
    hide Conflict;
    forall k, l | k in c && l in c && k != l ensures Unsat(clauses, {k, l}) {
      var i :| 0 <= i < |c| && c[i] == k;
      var j :| 0 <= j < |c| && c[j] == l;
      assert Conflict(clauses, poids, c[i], c[j]);
    }
  }

  /** No clique of the graph has more than two vertices. */
  ghost predicate SmallCliques(net: Net) {
    forall s: set<nat> | Clique.IsClique(net.conn, s) && (forall v | v in s :: v < |net.conn|) :: |s| <= 2
  }

  lemma EmptyNet(clauses: set<Clause>, poids: map<nat, int>, n: nat, net: Net)
    requires Ready(clauses, poids, n, net) && net.lits == []
    ensures SmallCliques(net)
  {
    forall s: set<nat> | Clique.IsClique(net.conn, s) && (forall v | v in s :: v < |net.conn|) ensures s == {} {
    }
  }

  // ----- changes of the graph -----

  /** More clauses, and new weights only for literals that are at no vertex in use. */
  lemma ReadyStep(clauses: set<Clause>, clauses': set<Clause>, poids: map<nat, int>, poids': map<nat, int>, n: nat, n': nat, net: Net, lits: seq<Lit>)
    requires Ready(clauses, poids, n, net) && clauses <= clauses' && n <= n' && Untouched(poids, poids', n, lits)
    requires forall l | l in lits :: WeightOf(poids, l) > 0
    requires forall a | 0 <= a < |net.lits| && net.active[a] :: net.lits[a] !in lits
    ensures Ready(clauses', poids', n', net)
  {
    hide Clique.IsGraph;
    forall a | 0 <= a < |net.lits| && net.active[a]
      ensures WeightOf(poids', net.lits[a]) == WeightOf(poids, net.lits[a]) && Placed(clauses', poids', n', net.lits[a])
    {
      UntouchedAt(poids, poids', n, lits, net.lits[a]);
    }
    forall a: nat, b: nat | Edge(net, a, b) && b < |net.lits| ensures Conflict(clauses', poids', net.lits[a], net.lits[b]) {
      UnsatMore(clauses, clauses', {net.lits[a], net.lits[b]});
    }
  }

  lemma UnsatMore(clauses: set<Clause>, clauses': set<Clause>, ls: set<Lit>)
    requires clauses <= clauses' && Unsat(clauses, ls)
    ensures Unsat(clauses', ls)
  {
  }

  function NoEdges(n: nat): (r: Clique.Graph)
    ensures |r| == n && Clique.IsGraph(r) && forall a: nat, b: nat :: !Clique.Adjacent(r, a, b)
  {
    seq(n, _ => seq(n, _ => false))
  }

  function Link(conn: Clique.Graph, i: nat, j: nat): (r: Clique.Graph)
    requires Clique.IsGraph(conn) && i < |conn| && j < |conn|
    ensures |r| == |conn| && Clique.IsGraph(r)
    ensures forall a: nat, b: nat :: Clique.Adjacent(r, a, b) <==> Clique.Adjacent(conn, a, b) || (a == i && b == j) || (a == j && b == i)
  {
    var c := conn[i := conn[i][j := true]];
    c[j := c[j][i := true]]
  }

  /** Row and column i are cleared. */
  function Unlink(conn: Clique.Graph, i: nat): (r: Clique.Graph)
    requires Clique.IsGraph(conn)
    ensures |r| == |conn| && Clique.IsGraph(r)
    ensures forall a: nat, b: nat :: Clique.Adjacent(r, a, b) <==> Clique.Adjacent(conn, a, b) && a != i && b != i
  {
    seq(|conn|, a requires 0 <= a < |conn| => seq(|conn|, b requires 0 <= b < |conn| => conn[a][b] && a != i && b != i))
  }

  /** The last row and column are out of range from now on. */
  function Shrink(conn: Clique.Graph): (r: Clique.Graph)
    requires Clique.IsGraph(conn) && conn != []
    ensures |r| == |conn| - 1 && Clique.IsGraph(r)
    ensures forall a: nat, b: nat :: Clique.Adjacent(r, a, b) <==> Clique.Adjacent(conn, a, b) && a < |r| && b < |r|
  {
    seq(|conn| - 1, a requires 0 <= a < |conn| - 1 => conn[a][..|conn| - 1])
  }

  /** While the graph is built: every vertex is in use, and its literal soft. */
  ghost predicate AllSoft(poids: map<nat, int>, net: Net) {
    |net.active| == |net.lits| && forall a | 0 <= a < |net.lits| :: net.active[a] && WeightOf(poids, net.lits[a]) > 0
  }

  /** The first graph: one vertex for each soft literal. */
  lemma ReadyStart(clauses: set<Clause>, poids: map<nat, int>, n: nat, lits: seq<Lit>)
    requires Distinct(lits) && forall l | l in lits :: WeightOf(poids, l) > 0 && l.v <= n
    ensures var net := Net(lits, seq(|lits|, _ => true), NoEdges(|lits|));
            Ready(clauses, poids, n, net) && AllSoft(poids, net)
  {
  }

  /** A literal that failed leaves its vertex to the last one. */
  function Drop(net: Net, i: nat): (r: Net)
    requires Sized(net) && i < |net.lits|
    ensures |r.lits| == |net.lits| - 1
    ensures forall k | 0 <= k < |r.lits| :: r.lits[k] == if k == i then net.lits[|net.lits| - 1] else net.lits[k]
  {
    var n := |net.lits| - 1;
    Net(net.lits[i := net.lits[n]][..n], net.active[..n], Shrink(Unlink(net.conn, i)))
  }

  lemma ReadyDrop(clauses: set<Clause>, poids: map<nat, int>, n: nat, net: Net, net': Net, i: nat)
    requires Ready(clauses, poids, n, net) && i < |net.lits| && net' == Drop(net, i)
    requires forall a | 0 <= a < |net.lits| :: net.active[a]
    ensures Ready(clauses, poids, n, net') && forall a | 0 <= a < |net'.lits| :: net'.active[a]
    ensures net.lits[i] !in net'.lits
  {
    hide Clique.IsGraph, Clique.Adjacent;
    assert forall a: nat, b: nat | Edge(net', a, b) && b < |net'.lits| :: Edge(net, a, b) && a != i && b != i;
  }

  lemma NetAt(clauses: set<Clause>, poids: map<nat, int>, n: nat, net: Net, i: nat)
    requires Ready(clauses, poids, n, net) && AllSoft(poids, net) && i < |net.lits|
    ensures Sized(net) && net.active[i] && WeightOf(poids, net.lits[i]) > 0
  {
  }

  lemma AllSoftLinked(poids: map<nat, int>, net: Net, net': Net)
    requires AllSoft(poids, net) && net'.lits == net.lits && net'.active == net.active
    ensures AllSoft(poids, net')
  {
  }

  /** A literal that failed is paid for and leaves the graph. */
  lemma DropStep(clauses: set<Clause>, clauses': set<Clause>, poids: map<nat, int>, poids': map<nat, int>, n: nat, n': nat, net: Net, i: nat)
    requires Ready(clauses, poids, n, net) && AllSoft(poids, net) && i < |net.lits|
    requires clauses <= clauses' && n <= n' && Untouched(poids, poids', n, [net.lits[i]])
    ensures Ready(clauses', poids', n', Drop(net, i)) && AllSoft(poids', Drop(net, i))
  {
    hide Edge, Conflict, Clique.IsGraph;
    var net' := Drop(net, i);
    ReadyDrop(clauses, poids, n, net, net', i);
    ReadyStep(clauses, clauses', poids, poids', n, n', net', [net.lits[i]]);
    forall a | 0 <= a < |net'.lits| ensures WeightOf(poids', net'.lits[a]) > 0 {
      assert net'.lits[a] in net'.lits && Placed(clauses, poids, n, net'.lits[a]);
      UntouchedAt(poids, poids', n, [net.lits[i]], net'.lits[a]);
    }
  }

  /** Vertex k is in use and propagation falsified its literal. */
  predicate Hit(net: Net, prop: set<Lit>, k: nat) {
    k < |net.lits| && k < |net.active| && net.active[k] && Neg(net.lits[k]) in prop
  }

  /** The loops that join a vertex with those its propagation excludes. */
  method LinkAll(net: Net, i: nat, prop: set<Lit>) returns (r: Net)
    requires Sized(net) && i < |net.lits|
    ensures Sized(r) && r == net.(conn := r.conn)
    ensures forall a: nat, b: nat :: Edge(r, a, b) <==>
                             Edge(net, a, b) || (a != b && a == i && Hit(net, prop, b)) || (a != b && b == i && Hit(net, prop, a))
  {
    hide Clique.IsGraph, Clique.Adjacent;
    r := net;
    for k := 0 to |net.lits|
      invariant Sized(r) && r == net.(conn := r.conn)
      invariant forall a: nat, b: nat :: Edge(r, a, b) <==>
                                 || Edge(net, a, b)
                                 || (a != b && a == i && b < k && Hit(net, prop, b))
                                 || (a != b && b == i && a < k && Hit(net, prop, a))
    {
      if k != i && net.active[k] && Neg(net.lits[k]) in prop {
        r := r.(conn := Link(r.conn, i, k));
      }
    }
  }

  /** Linking a soft literal by its propagation adds only conflicts. */
  lemma ReadyLinked(clauses: set<Clause>, poids: map<nat, int>, n: nat, net: Net, r: Net, i: nat, prop: set<Lit>)
    requires Ready(clauses, poids, n, net) && i < |net.lits| && net.active[i] && WeightOf(poids, net.lits[i]) > 0
    requires Sized(r) && r == net.(conn := r.conn)
    requires forall a: nat, b: nat :: Edge(r, a, b) <==>
                              Edge(net, a, b) || (a != b && a == i && Hit(net, prop, b)) || (a != b && b == i && Hit(net, prop, a))
    requires forall q | q in prop :: Unsat(clauses, {net.lits[i], Neg(q)}) && [q] !in clauses
    ensures Ready(clauses, poids, n, r)
  {
    hide Clique.IsGraph, Clique.Adjacent, Edge, Sized;
    forall k: nat | Hit(net, prop, k) && k != i
      ensures Conflict(clauses, poids, net.lits[i], net.lits[k]) && Conflict(clauses, poids, net.lits[k], net.lits[i])
    {
      assert Placed(clauses, poids, n, net.lits[k]) && Neg(Neg(net.lits[k])) == net.lits[k];
      assert {net.lits[i], net.lits[k]} == {net.lits[k], net.lits[i]};
    }
  }

  /** The loop that takes the vertices of a clique out of use. */
  method Detach(net: Net, q: seq<nat>) returns (r: Net)
    requires Sized(net) && forall i | 0 <= i < |q| :: q[i] < |net.lits|
    ensures Sized(r) && r.lits == net.lits
    ensures forall a | 0 <= a < |net.lits| :: r.active[a] <==> net.active[a] && a !in q
    ensures forall a: nat, b: nat :: Edge(r, a, b) <==> Edge(net, a, b) && a !in q && b !in q
  {
    hide Clique.IsGraph, Clique.Adjacent;
    r := net;
    for i := 0 to |q|
      invariant Sized(r) && r.lits == net.lits
      invariant forall a | 0 <= a < |net.lits| :: r.active[a] <==> net.active[a] && a !in q[..i]
      invariant forall a: nat, b: nat :: Edge(r, a, b) <==> Edge(net, a, b) && a !in q[..i] && b !in q[..i]
    {
      assert q[..i + 1] == q[..i] + [q[i]];
      assert forall a: nat :: a in q[..i + 1] <==> a in q[..i] || a == q[i];
      ghost var before := r;
      r := Net(r.lits, r.active[q[i] := false], Unlink(r.conn, q[i]));
      forall a: nat, b: nat ensures Edge(r, a, b) <==> Edge(net, a, b) && a !in q[..i + 1] && b !in q[..i + 1] {
        assert Edge(r, a, b) <==> Edge(before, a, b) && a != q[i] && b != q[i];
      }
    }
    assert q[..|q|] == q;
  }

  lemma ReadyDetached(clauses: set<Clause>, poids: map<nat, int>, n: nat, net: Net, r: Net, q: seq<nat>)
    requires Ready(clauses, poids, n, net) && (forall i | 0 <= i < |q| :: q[i] < |net.lits| && net.active[q[i]])
    requires Sized(r) && r.lits == net.lits && forall a | 0 <= a < |net.lits| :: r.active[a] <==> net.active[a] && a !in q
    requires forall a: nat, b: nat :: Edge(r, a, b) <==> Edge(net, a, b) && a !in q && b !in q
    ensures Ready(clauses, poids, n, r)
    ensures forall a | 0 <= a < |r.lits| && r.active[a] :: r.lits[a] !in Members(net, q)
  {
    hide Clique.IsGraph, Conflict, Placed;
  }

  // ----- vertices in use again -----

  /** The literals from j on wait for their vertices. */
  ghost predicate Waiting(poids: map<nat, int>, n: nat, net: Net, q: seq<nat>, r: seq<Lit>, j: nat) {
    |r| <= |q| && forall k | j <= k < |r| :: Free(poids, n, net, q[k], r[k])
  }

  /** A soft literal at no vertex, and a vertex without use. */
  ghost predicate Free(poids: map<nat, int>, n: nat, net: Net, i: nat, l: Lit) {
    && WeightOf(poids, l) > 0 && l.v <= n && i < |net.lits| == |net.active| && !net.active[i]
    && forall a | 0 <= a < |net.lits| && net.active[a] :: net.lits[a] != l
  }

  function Attach(net: Net, i: nat, l: Lit): (r: Net)
    requires i < |net.lits| && i < |net.active|
  {
    net.(lits := net.lits[i := l], active := net.active[i := true])
  }

  lemma ReadyAttach(clauses: set<Clause>, poids: map<nat, int>, n: nat, net: Net, i: nat, l: Lit)
    requires Ready(clauses, poids, n, net) && Free(poids, n, net, i, l)
    ensures Ready(clauses, poids, n, Attach(net, i, l))
  {
    var r := Attach(net, i, l);
    hide Clique.IsGraph, Clique.Adjacent, Conflict;
    forall a: nat, b: nat | Edge(r, a, b) && b < |r.lits|
      ensures r.active[a] && r.active[b] && Conflict(clauses, poids, r.lits[a], r.lits[b])
    {
      assert Edge(net, a, b);
    }
  }

  lemma WaitingAttach(poids: map<nat, int>, n: nat, net: Net, q: seq<nat>, r: seq<Lit>, j: nat)
    requires Waiting(poids, n, net, q, r, j) && j < |r| && Distinct(q) && Distinct(r) && |net.lits| == |net.active|
    ensures Free(poids, n, net, q[j], r[j])
    ensures Waiting(poids, n, Attach(net, q[j], r[j]), q, r, j + 1)
  {
    forall k | j < k < |r| ensures Free(poids, n, Attach(net, q[j], r[j]), q[k], r[k]) {
      assert Free(poids, n, net, q[k], r[k]) && Free(poids, n, net, q[j], r[j]);
    }
  }

  /** Paying for one literal leaves the others waiting. */
  lemma WaitingStep(poids: map<nat, int>, poids': map<nat, int>, n: nat, n': nat, net: Net, q: seq<nat>, r: seq<Lit>, j: nat, l: Lit)
    requires Waiting(poids, n, net, q, r, j) && n <= n' && Untouched(poids, poids', n, [l]) && WeightOf(poids, l) > 0
    requires forall k | j <= k < |r| :: r[k] != l
    ensures Waiting(poids', n', net, q, r, j)
  {
    forall k | j <= k < |r| ensures Free(poids', n', net, q[k], r[k]) {
      assert Free(poids, n, net, q[k], r[k]);
      UntouchedAt(poids, poids', n, [l], r[k]);
    }
  }

  lemma WaitingLinked(poids: map<nat, int>, n: nat, net: Net, net': Net, q: seq<nat>, r: seq<Lit>, j: nat)
    requires Waiting(poids, n, net, q, r, j) && net'.lits == net.lits && net'.active == net.active
    ensures Waiting(poids, n, net', q, r, j)
  {
    forall k | j <= k < |r| ensures Free(poids, n, net', q[k], r[k]) {
      assert Free(poids, n, net, q[k], r[k]);
    }
  }

  /** A literal that fails as soon as it is back stays at its vertex without edges. */
  lemma PlacedStep(clauses: set<Clause>, clauses': set<Clause>, poids: map<nat, int>, poids': map<nat, int>, n: nat, n': nat, net: Net, i: nat, l: Lit)
    requires Ready(clauses, poids, n, net) && Free(poids, n, net, i, l)
    requires clauses <= clauses' && n <= n' && Untouched(poids, poids', n, [l]) && WeightOf(poids', l) == 0 && [Neg(l)] in clauses'
    ensures Ready(clauses', poids', n', Attach(net, i, l))
  {
    ReadyStep(clauses, clauses', poids, poids', n, n', net, [l]);
    var r := Attach(net, i, l);
    hide Clique.IsGraph, Clique.Adjacent, Conflict;
    forall a: nat, b: nat | Edge(r, a, b) && b < |r.lits|
      ensures r.active[a] && r.active[b] && Conflict(clauses', poids', r.lits[a], r.lits[b])
    {
      assert Edge(net, a, b);
    }
  }

  lemma OutcomeDistinct(poids: map<nat, int>, n0: nat, n: nat, lits: seq<Lit>, r: seq<Lit>)
    requires Outcome(poids, n0, n, lits, r)
    ensures Distinct(r)
  {
  }

  /** What comes out of a contraction waits for the vertices that went into it. */
  lemma WaitingStart(poids: map<nat, int>, n0: nat, n: nat, net: Net, q: seq<nat>, lits: seq<Lit>, r: seq<Lit>, clauses: set<Clause>, poids0: map<nat, int>)
    requires Ready(clauses, poids0, n0, net) && Outcome(poids, n0, n, lits, r) && |r| <= |q|
    requires forall i | 0 <= i < |q| :: q[i] < |net.lits| && !net.active[q[i]]
    requires forall a | 0 <= a < |net.lits| && net.active[a] :: net.lits[a] !in lits
    ensures Waiting(poids, n, net, q, r, 0)
  {
    hide Edge, Conflict;
    forall k | 0 <= k < |r| ensures Free(poids, n, net, q[k], r[k]) {
      assert r[k] in r;
      forall a | 0 <= a < |net.lits| && net.active[a] ensures net.lits[a] != r[k] {
        assert Placed(clauses, poids0, n0, net.lits[a]);
      }
    }
  }
}
