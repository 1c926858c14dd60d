/**
 Branch and bound for a maximum clique: greedy colouring in place gives the
 bound that prunes the search.
 */
module Clique {
  import opened Cnf

  datatype Vertex = Vertex(i: nat, d: nat)

  type Graph = seq<seq<bool>>

  ghost predicate IsGraph(g: Graph) {
    && (forall u | 0 <= u < |g| :: |g[u]| == |g|)
    && (forall u, v | 0 <= u < |g| && 0 <= v < |g| :: g[u][v] == g[v][u])
  }

  predicate Adjacent(g: Graph, u: nat, v: nat) {
    u < |g| && v < |g[u]| && g[u][v]
  }

  ghost predicate IsClique(g: Graph, s: set<nat>) {
    forall u, v | u in s && v in s && u != v :: Adjacent(g, u, v)
  }

  /** Every clique among these vertices has at most k members. */
  ghost predicate CliqueBound(g: Graph, ids: seq<nat>, k: int) {
    forall s: set<nat> | IsClique(g, s) && s <= ToSet(ids) :: |s| <= k
  }

  function Ids(r: seq<Vertex>): (ids: seq<nat>)
    ensures |ids| == |r| && forall p | 0 <= p < |r| :: ids[p] == r[p].i
  {
    seq(|r|, p requires 0 <= p < |r| => r[p].i)
  }

  // ----- colour classes -----

  type Classes = seq<seq<nat>>

  ghost predicate Independent(g: Graph, c: seq<nat>) {
    forall a, b | 0 <= a < b < |c| :: !Adjacent(g, c[b], c[a])
  }

  /** The classes lo..hi one after the other. */
  function Flat(c: Classes, lo: nat, hi: nat): (r: seq<nat>)
    requires hi <= |c|
    decreases hi
  {
    if lo >= hi then [] else Flat(c, lo, hi - 1) + c[hi - 1]
  }

  lemma {:induction false} FlatSame(c: Classes, c': Classes, lo: nat, hi: nat)
    requires hi <= |c| && hi <= |c'| && forall k | lo <= k < hi :: c'[k] == c[k]
    ensures Flat(c', lo, hi) == Flat(c, lo, hi)
    decreases hi
  {
    if lo < hi {
      FlatSame(c, c', lo, hi - 1);
    }
  }

  /** Pushing a vertex onto one of the classes. */
  lemma {:induction false} FlatPush(c: Classes, c': Classes, k: nat, x: nat, lo: nat, hi: nat)
    requires lo <= k < hi <= |c| && c' == c[k := c[k] + [x]]
    ensures multiset(Flat(c', lo, hi)) == multiset(Flat(c, lo, hi)) + multiset{x}
    decreases hi
  {
    var n := hi - 1;
    if n == k {
      FlatSame(c, c', lo, k);
      assert Flat(c', lo, hi) == Flat(c, lo, hi) + [x];
    } else {
      FlatPush(c, c', k, x, lo, n);
      assert c'[n] == c[n];
    }
  }

  lemma {:induction false} FlatSplit(c: Classes, lo: nat, mid: nat, hi: nat)
    requires lo <= mid <= hi <= |c|
    ensures Flat(c, lo, hi) == Flat(c, lo, mid) + Flat(c, mid, hi)
    decreases hi
  {
    if mid < hi {
      FlatSplit(c, lo, mid, hi - 1);
    }
  }

  lemma {:induction false} FlatMember(c: Classes, lo: nat, hi: nat, k: nat, x: nat)
    requires lo <= k < hi <= |c| && x in c[k]
    ensures x in Flat(c, lo, hi)
    decreases hi
  {
    if k < hi - 1 {
      FlatMember(c, lo, hi - 1, k, x);
    }
  }

  /** A clique has at most one vertex in an independent class. */
  lemma OnePerClass(g: Graph, c: seq<nat>, s: set<nat>)
    requires IsGraph(g) && Independent(g, c) && IsClique(g, s)
    ensures |s * ToSet(c)| <= 1
  {
    var t := s * ToSet(c);
    if t != {} {
      var u :| u in t;
      forall v | v in t ensures v == u {
        var a :| 0 <= a < |c| && c[a] == u;
        var b :| 0 <= b < |c| && c[b] == v;
      }
      assert t == {u};
    }
  }

  /** The colouring bound: d classes hold no clique of more than d vertices. */
  lemma {:induction false} ColouringBound(g: Graph, c: Classes, d: nat, s: set<nat>)
    requires IsGraph(g) && d < |c| && forall k | 1 <= k <= d :: Independent(g, c[k])
    requires IsClique(g, s) && s <= ToSet(Flat(c, 1, d + 1))
    ensures |s| <= d
  {
    if d == 0 {
      assert s <= {};
      assert s == {};
    } else {
      var rest := s - ToSet(c[d]);
      assert rest <= ToSet(Flat(c, 1, d)) by {
        forall x | x in rest ensures x in Flat(c, 1, d) {
          assert x in Flat(c, 1, d) + c[d];
        }
      }
      ColouringBound(g, c, d - 1, rest);
      OnePerClass(g, c[d], s);
      assert s == rest + s * ToSet(c[d]);
    }
  }

  // ----- colouring in place -----

  ghost predicate DegreeBounds(g: Graph, r: seq<Vertex>, p: nat)
    requires p < |r|
  {
    CliqueBound(g, Ids(r[..p + 1]), r[p].d)
  }

  /** Where the search reads a degree, it bounds the cliques among the vertices up to there. */
  ghost predicate DegreesOk(g: Graph, r: seq<Vertex>, j: nat, q: nat, qmax: nat) {
    && j <= |r|
    && (forall p | j <= p < |r| :: DegreeBounds(g, r, p))
    && (j > 0 ==> r[j - 1].d == 0 && q <= qmax && CliqueBound(g, Ids(r[..j]), qmax - q))
  }

  function Top(lo: nat, maxno: nat): (r: nat)
    ensures r <= lo && r <= maxno + 1
  {
    if lo <= maxno then lo else maxno + 1
  }

  ghost predicate AllIn(xs: seq<nat>, ys: seq<nat>) {
    forall x | x in xs :: x in ys
  }

  /** State of the first loop of `color_sort` after i vertices; those of a class below `lo` stay in front. */
  ghost predicate Coloured(g: Graph, ids: seq<nat>, i: nat, kept: seq<nat>, c: Classes, maxno: nat, lo: nat) {
    && i <= |ids| && 1 <= lo && 1 <= maxno && maxno + 1 < |c| && c[maxno + 1] == []
    && (forall k | 1 <= k <= maxno :: Independent(g, c[k]))
    && multiset(kept) + multiset(Flat(c, lo, maxno + 1)) == multiset(ids[..i])
    && AllIn(kept, Flat(c, 1, Top(lo, maxno)))
  }

  /** A new, empty class changes nothing. */
  lemma OpenClass(g: Graph, ids: seq<nat>, i: nat, kept: seq<nat>, c: Classes, maxno: nat, lo: nat)
    requires Coloured(g, ids, i, kept, c, maxno, lo) && maxno + 2 < |c|
    ensures Coloured(g, ids, i, kept, c[maxno + 2 := []], maxno + 1, lo)
  {
    hide Independent, AllIn, Flat;
    var c' := c[maxno + 2 := []];
    assert c'[maxno + 1] == [];
    FlatOpen(c, c', maxno, lo);
    FlatOpen(c, c', maxno, 1);
    if lo <= maxno {
      FlatSame(c, c', 1, lo);
    } else if lo == maxno + 1 {
      FlatSame(c, c', 1, maxno + 1);
    }
    assert Flat(c', 1, Top(lo, maxno + 1)) == Flat(c, 1, Top(lo, maxno));
    forall k | 1 <= k <= maxno + 1 ensures Independent(g, c'[k]) {
      if k == maxno + 1 {
        EmptyIndependent(g);
      }
    }
  }

  lemma EmptyIndependent(g: Graph)
    ensures Independent(g, [])
  {
  }

  lemma FlatOpen(c: Classes, c': Classes, maxno: nat, lo: nat)
    requires maxno + 2 < |c| == |c'| && forall k | 0 <= k <= maxno + 1 :: c'[k] == c[k]
    requires c[maxno + 1] == []
    ensures Flat(c', lo, maxno + 2) == Flat(c, lo, maxno + 1)
  {
    FlatSame(c, c', lo, maxno + 1);
  }

  /** Vertex x goes into a class without a neighbour of x. */
  lemma PushClass(g: Graph, ids: seq<nat>, i: nat, kept: seq<nat>, c: Classes, maxno: nat, lo: nat, k: nat, c': Classes)
    requires Coloured(g, ids, i, kept, c, maxno, lo) && i < |ids| && 1 <= k <= maxno
    requires forall b | 0 <= b < |c[k]| :: !Adjacent(g, ids[i], c[k][b])
    requires c' == c[k := c[k] + [ids[i]]]
    ensures Coloured(g, ids, i + 1, if k < lo then kept + [ids[i]] else kept, c', maxno, lo)
  {
    hide Independent, AllIn, Flat;
    var x := ids[i];
    PushIndependent(g, c, c', k, x, maxno);
    PushKept(c, c', k, x, kept, lo, maxno);
    PushCount(ids, i, kept, c, c', k, lo, maxno);
  }

  lemma PushCount(ids: seq<nat>, i: nat, kept: seq<nat>, c: Classes, c': Classes, k: nat, lo: nat, maxno: nat)
    requires i < |ids| && 1 <= k <= maxno && maxno + 1 < |c| && c' == c[k := c[k] + [ids[i]]]
    requires multiset(kept) + multiset(Flat(c, lo, maxno + 1)) == multiset(ids[..i])
    ensures multiset(if k < lo then kept + [ids[i]] else kept) + multiset(Flat(c', lo, maxno + 1)) == multiset(ids[..i + 1])
  {
    hide Flat;
    assert ids[..i + 1] == ids[..i] + [ids[i]];
    if k < lo {
      FlatSame(c, c', lo, maxno + 1);
    } else {
      FlatPush(c, c', k, ids[i], lo, maxno + 1);
    }
  }

  lemma PushIndependent(g: Graph, c: Classes, c': Classes, k: nat, x: nat, maxno: nat)
    requires 1 <= k <= maxno < |c| && c' == c[k := c[k] + [x]]
    requires forall j | 1 <= j <= maxno :: Independent(g, c[j])
    requires forall b | 0 <= b < |c[k]| :: !Adjacent(g, x, c[k][b])
    ensures forall j | 1 <= j <= maxno :: Independent(g, c'[j])
  {
    assert Independent(g, c[k]);
  }

  lemma PushKept(c: Classes, c': Classes, k: nat, x: nat, kept: seq<nat>, lo: nat, maxno: nat)
    requires 1 <= k <= maxno && maxno + 1 < |c| && c' == c[k := c[k] + [x]]
    requires AllIn(kept, Flat(c, 1, Top(lo, maxno)))
    ensures AllIn(if k < lo then kept + [x] else kept, Flat(c', 1, Top(lo, maxno)))
  {
    var top := Top(lo, maxno);
    forall y | y in kept ensures y in Flat(c', 1, top) {
      FlatPushMember(c, c', k, x, 1, top, y);
    }
    if k < lo {
      FlatMember(c', 1, top, k, x);
    }
  }

  lemma FlatPushMember(c: Classes, c': Classes, k: nat, x: nat, lo: nat, hi: nat, y: nat)
    requires hi <= |c| && k < |c| && c' == c[k := c[k] + [x]] && y in Flat(c, lo, hi)
    ensures y in Flat(c', lo, hi)
  {
    if lo <= k < hi {
      FlatPush(c, c', k, x, lo, hi);
      assert y in multiset(Flat(c, lo, hi));
      assert y in multiset(Flat(c', lo, hi));
    } else {
      FlatSame(c, c', lo, hi);
    }
  }

  /** `cut1`: does the class hold a neighbour? */
  method Cut1(g: Graph, u: nat, c: seq<nat>) returns (r: bool)
    ensures r <==> exists b | 0 <= b < |c| :: Adjacent(g, u, c[b])
  {
    for b := 0 to |c|
      invariant forall b' | 0 <= b' < b :: !Adjacent(g, u, c[b'])
    {
      if Adjacent(g, u, c[b]) {
        return true;
      }
    }
    return false;
  }

  /** The number of the first class that can take the vertex. */
  method FirstClass(g: Graph, u: nat, c: Classes, maxno: nat) returns (k: nat)
    requires maxno + 1 < |c| && c[maxno + 1] == []
    ensures 1 <= k <= maxno + 1 && forall b | 0 <= b < |c[k]| :: !Adjacent(g, u, c[k][b])
    ensures forall k' | 1 <= k' < k :: c[k'] != []
  {
    k := 1;
    var found := Cut1(g, u, c[k]);
    while found
      invariant 1 <= k <= maxno + 1 && forall k' | 1 <= k' < k :: c[k'] != []
      invariant found <==> exists b | 0 <= b < |c[k]| :: Adjacent(g, u, c[k][b])
      decreases maxno + 1 - k, found
    {
      k := k + 1;
      found := Cut1(g, u, c[k]);
    }
  }

  // ----- the search -----

  /** After both loops of `color_sort`: a permutation with sound degrees. */
  ghost predicate ColourSorted(g: Graph, ids: seq<nat>, r: seq<Vertex>, j: nat, q: nat, qmax: nat) {
    && |r| == |ids| && multiset(Ids(r)) == multiset(ids)
    && DegreesOk(g, r, j, q, qmax)
  }

  /** State of the second loop: classes lo..k were written out, and i vertices of class k. */
  ghost predicate Written(r: seq<Vertex>, j: nat, p: nat, c: Classes, lo: nat, k: nat, i: nat) {
    && lo <= k < |c| && i <= |c[k]| && j <= p <= |r|
    && Ids(r[j..p]) == Flat(c, lo, k) + c[k][..i]
    && forall a | j <= a < p :: r[a].d < k + i && r[a].d <= k && WrittenAt(r, j, a, c, lo)
  }

  /** The vertices from j to a have a colour between `lo` and that of a. */
  ghost predicate WrittenAt(r: seq<Vertex>, j: nat, a: nat, c: Classes, lo: nat)
    requires j <= a < |r|
  {
    lo <= r[a].d < |c| && AllIn(Ids(r[j..a + 1]), Flat(c, lo, r[a].d + 1))
  }

  lemma WriteVertex(r: seq<Vertex>, r': seq<Vertex>, j: nat, p: nat, c: Classes, lo: nat, k: nat, i: nat)
    requires Written(r, j, p, c, lo, k, i) && i < |c[k]| && p < |r|
    requires r' == r[p := Vertex(c[k][i], k)]
    ensures Written(r', j, p + 1, c, lo, k, i + 1)
  {
    assert r'[j..p + 1] == r[j..p] + [r'[p]];
    assert Ids(r'[j..p + 1]) == Ids(r[j..p]) + [c[k][i]];
    assert c[k][..i + 1] == c[k][..i] + [c[k][i]];
    forall a | j <= a < p + 1 ensures r'[a].d < k + i + 1 && r'[a].d <= k && WrittenAt(r', j, a, c, lo) {
      if a < p {
        assert WrittenAt(r, j, a, c, lo);
        assert r'[j..a + 1] == r[j..a + 1];
      } else {
        assert Flat(c, lo, k + 1) == Flat(c, lo, k) + c[k];
      }
    }
  }

  lemma NextClass(r: seq<Vertex>, j: nat, p: nat, c: Classes, lo: nat, k: nat)
    requires k + 1 < |c| && Written(r, j, p, c, lo, k, |c[k]|)
    ensures Written(r, j, p, c, lo, k + 1, 0)
  {
    assert c[k][..|c[k]|] == c[k] && c[k + 1][..0] == [];
    assert Flat(c, lo, k + 1) == Flat(c, lo, k) + c[k];
  }

  /** Vertices in d classes: no clique of more than d. */
  lemma ClassesBound(g: Graph, ids: seq<nat>, c: Classes, d: nat)
    requires IsGraph(g) && d < |c| && forall k | 1 <= k <= d :: Independent(g, c[k])
    requires AllIn(ids, Flat(c, 1, d + 1))
    ensures CliqueBound(g, ids, d)
  {
    hide Independent, Flat;
    forall s: set<nat> | IsClique(g, s) && s <= ToSet(ids) ensures |s| <= d {
      assert s <= ToSet(Flat(c, 1, d + 1));
      ColouringBound(g, c, d, s);
    }
  }

  lemma BoundWeaken(g: Graph, ids: seq<nat>, d: int, d': int)
    requires CliqueBound(g, ids, d) && d <= d'
    ensures CliqueBound(g, ids, d')
  {
  }

  lemma PrefixIn(r: seq<Vertex>, j: nat, a: nat, c: Classes, lo: nat, d: nat)
    requires j <= a < |r| && 1 <= lo <= d + 1 <= |c|
    requires AllIn(Ids(r[..j]), Flat(c, 1, lo)) && AllIn(Ids(r[j..a + 1]), Flat(c, lo, d + 1))
    ensures AllIn(Ids(r[..a + 1]), Flat(c, 1, d + 1))
  {
    hide Flat;
    FlatSplit(c, 1, lo, d + 1);
    assert Ids(r[..a + 1]) == Ids(r[..j]) + Ids(r[j..a + 1]);
  }

  /** The colouring makes every degree that will be read a bound. */
  lemma ColourDegrees(g: Graph, r: seq<Vertex>, j: nat, c: Classes, lo: nat, maxno: nat, q: nat, qmax: nat)
    requires IsGraph(g) && 1 <= lo && maxno + 1 < |c| && forall k | 1 <= k <= maxno :: Independent(g, c[k])
    requires j <= |r| && AllIn(Ids(r[..j]), Flat(c, 1, Top(lo, maxno)))
    requires forall a | j <= a < |r| :: r[a].d <= maxno && WrittenAt(r, j, a, c, lo)
    requires j > 0 ==> r[j - 1].d == 0 && q + lo - 1 <= qmax
    ensures DegreesOk(g, r, j, q, qmax)
  {
    hide Independent, Flat, AllIn, CliqueBound, IsGraph, DegreeBounds, WrittenAt;
    forall a | j <= a < |r| ensures DegreeBounds(g, r, a) {
      ColourDegree(g, r, j, a, c, lo, maxno);
    }
    if j > 0 {
      var top := Top(lo, maxno);
      ClassesBound(g, Ids(r[..j]), c, top - 1);
      BoundWeaken(g, Ids(r[..j]), top - 1, qmax - q);
    }
  }

  lemma ColourDegree(g: Graph, r: seq<Vertex>, j: nat, a: nat, c: Classes, lo: nat, maxno: nat)
    requires IsGraph(g) && 1 <= lo && maxno + 1 < |c| && forall k | 1 <= k <= maxno :: Independent(g, c[k])
    requires j <= a < |r| && AllIn(Ids(r[..j]), Flat(c, 1, Top(lo, maxno)))
    requires r[a].d <= maxno && WrittenAt(r, j, a, c, lo)
    ensures DegreeBounds(g, r, a)
  {
    hide Independent, Flat, AllIn, CliqueBound, IsGraph, Ids;
    PrefixIn(r, j, a, c, lo, r[a].d);
    ClassesBound(g, Ids(r[..a + 1]), c, r[a].d);
  }

  lemma {:induction false} FlatSizes(c: Classes, lo: nat, k: nat, hi: nat)
    requires lo <= k < hi <= |c|
    ensures |Flat(c, lo, k)| + |c[k]| <= |Flat(c, lo, hi)|
    decreases hi
  {
    if k < hi - 1 {
      FlatSizes(c, lo, k, hi - 1);
    }
  }

  lemma ColouredSize(g: Graph, ids: seq<nat>, kept: seq<nat>, c: Classes, maxno: nat, lo: nat)
    requires Coloured(g, ids, |ids|, kept, c, maxno, lo)
    ensures |kept| + |Flat(c, lo, maxno + 1)| == |ids|
  {
    assert ids[..|ids|] == ids;
    assert |multiset(kept) + multiset(Flat(c, lo, maxno + 1))| == |multiset(ids)|;
  }

  lemma ColouredStart(g: Graph, ids: seq<nat>, c: Classes, lo: nat)
    requires 2 < |c| && c[1] == [] && c[2] == [] && 1 <= lo
    ensures Coloured(g, ids, 0, [], c, 1, lo)
  {
  }

  lemma ColouredFacts(g: Graph, ids: seq<nat>, i: nat, kept: seq<nat>, c: Classes, maxno: nat, lo: nat)
    requires Coloured(g, ids, i, kept, c, maxno, lo)
    ensures 1 <= maxno && maxno + 1 < |c| && c[maxno + 1] == []
  {
  }

  lemma WrittenStart(r: seq<Vertex>, j: nat, c: Classes, lo: nat)
    requires j <= |r| && lo < |c|
    ensures Written(r, j, j, c, lo, lo, 0)
  {
  }

  lemma WrittenSize(r: seq<Vertex>, j: nat, p: nat, c: Classes, lo: nat, k: nat, i: nat)
    requires Written(r, j, p, c, lo, k, i)
    ensures p == j + |Flat(c, lo, k)| + i
  {
    assert |Ids(r[j..p])| == p - j;
  }

  lemma WrittenEnd(r: seq<Vertex>, j: nat, p: nat, c: Classes, lo: nat, k: nat)
    requires Written(r, j, p, c, lo, k, 0) && j + |Flat(c, lo, k)| == |r|
    ensures p == |r| && Ids(r[j..]) == Flat(c, lo, k)
    ensures forall a | j <= a < |r| :: r[a].d < k && WrittenAt(r, j, a, c, lo)
  {
    WrittenSize(r, j, p, c, lo, k, 0);
    assert r[j..p] == r[j..];
  }

  // ----- the start colouring -----

  function Degree(g: Graph, u: nat, ids: seq<nat>): (r: nat)
    ensures r <= |ids|
  {
    if ids == [] then 0 else (if Adjacent(g, u, ids[|ids| - 1]) then 1 else 0) + Degree(g, u, ids[..|ids| - 1])
  }

  lemma {:induction false} DegreeCounts(g: Graph, u: nat, ids: seq<nat>, t: set<nat>)
    requires t <= ToSet(ids) && forall v | v in t :: Adjacent(g, u, v)
    ensures |t| <= Degree(g, u, ids)
  {
    if ids == [] {
      assert t == {};
    } else {
      var n := |ids| - 1;
      var rest := t - {ids[n]};
      forall v | v in rest ensures v in ids[..n] {
        var i :| 0 <= i < |ids| && ids[i] == v;
        assert v == ids[..n][i];
      }
      DegreeCounts(g, u, ids[..n], rest);
      if ids[n] in t {
        assert t == rest + {ids[n]};
      } else {
        assert t == rest;
      }
    }
  }

  lemma {:induction false} DegreeConcat(g: Graph, u: nat, a: seq<nat>, b: seq<nat>)
    ensures Degree(g, u, a + b) == Degree(g, u, a) + Degree(g, u, b)
  {
    if b == [] {
      assert a + b == a;
    } else {
      assert (a + b)[..|a + b| - 1] == a + b[..|b| - 1];
      DegreeConcat(g, u, a, b[..|b| - 1]);
    }
  }

  lemma DegreeRemoveAt(g: Graph, u: nat, a: seq<nat>, i: nat)
    requires i < |a|
    ensures Degree(g, u, a) == Degree(g, u, RemoveAt(a, i)) + Degree(g, u, [a[i]])
  {
    assert a == a[..i] + ([a[i]] + a[i + 1..]);
    DegreeConcat(g, u, a[..i], [a[i]] + a[i + 1..]);
    DegreeConcat(g, u, [a[i]], a[i + 1..]);
    DegreeConcat(g, u, a[..i], a[i + 1..]);
  }

  lemma {:induction false} DegreePermutation(g: Graph, u: nat, a: seq<nat>, b: seq<nat>)
    requires multiset(a) == multiset(b)
    ensures Degree(g, u, a) == Degree(g, u, b)
    decreases |a|
  {
    assert |a| == |multiset(a)| == |b|;
    if a != [] {
      assert a[0] in multiset(b);
      var i :| 0 <= i < |b| && b[i] == a[0];
      DegreeRemoveAt(g, u, a, 0);
      DegreeRemoveAt(g, u, b, i);
      DegreePermutation(g, u, RemoveAt(a, 0), RemoveAt(b, i));
    }
  }

  lemma {:induction false} IdsPermutation(a: seq<Vertex>, b: seq<Vertex>)
    requires multiset(a) == multiset(b)
    ensures multiset(Ids(a)) == multiset(Ids(b))
    decreases |a|
  {
    assert |a| == |multiset(a)| == |b|;
    if a != [] {
      assert a[0] in multiset(b);
      var i :| 0 <= i < |b| && b[i] == a[0];
      IdsPermutation(RemoveAt(a, 0), RemoveAt(b, i));
      IdsRemoveAt(a, 0);
      IdsRemoveAt(b, i);
    }
  }

  lemma IdsRemoveAt(a: seq<Vertex>, i: nat)
    requires i < |a|
    ensures multiset(Ids(a)) == multiset(Ids(RemoveAt(a, i))) + multiset{a[i].i}
  {
    assert Ids(RemoveAt(a, i)) == Ids(a[..i]) + Ids(a[i + 1..]);
    assert Ids(a) == Ids(a[..i]) + [a[i].i] + Ids(a[i + 1..]);
  }

  /** Sorting keeps the degrees. */
  lemma SortedDegrees(g: Graph, r: seq<Vertex>, r': seq<Vertex>)
    requires multiset(r') == multiset(r) && Descending(r')
    requires forall p | 0 <= p < |r| :: r[p].d == Degree(g, r[p].i, Ids(r))
    ensures multiset(Ids(r')) == multiset(Ids(r)) && DegreeSorted(g, r')
  {
    IdsPermutation(r', r);
    forall p | 0 <= p < |r'| ensures r'[p].d == Degree(g, r'[p].i, Ids(r')) {
      assert r'[p] in multiset(r);
      var i :| 0 <= i < |r| && r[i] == r'[p];
      DegreePermutation(g, r[i].i, Ids(r'), Ids(r));
    }
  }

  lemma SortedDegreeBound(g: Graph, r: seq<Vertex>)
    requires DegreeSorted(g, r) && |r| > 0
    ensures r[0].d <= |r|
  {
  }

  /** The state after `set_degrees` and `sort`. */
  ghost predicate DegreeSorted(g: Graph, r: seq<Vertex>) {
    && (forall p | 0 <= p < |r| :: r[p].d == Degree(g, r[p].i, Ids(r)))
    && Descending(r)
  }

  ghost predicate Descending(r: seq<Vertex>) {
    forall a, b | 0 <= a < b < |r| :: r[a].d >= r[b].d
  }

  /** A clique has at most one vertex more than the largest degree. */
  lemma DegreeBound(g: Graph, r: seq<Vertex>, s: set<nat>)
    requires DegreeSorted(g, r) && |r| > 0 && IsClique(g, s) && s <= ToSet(Ids(r))
    ensures |s| <= r[0].d + 1
  {
    if s != {} {
      var u :| u in s;
      var p :| 0 <= p < |r| && Ids(r)[p] == u;
      DegreeCounts(g, u, Ids(r), s - {u});
      assert |s| == |s - {u}| + 1;
    }
  }

  lemma {:induction false} SetOfSeqSize(xs: seq<nat>, s: set<nat>)
    requires s <= ToSet(xs)
    ensures |s| <= |xs|
  {
    if xs == [] {
      assert s == {};
    } else {
      var n := |xs| - 1;
      var rest := s - {xs[n]};
      forall v | v in rest ensures v in xs[..n] {
        var i :| 0 <= i < |xs| && xs[i] == v;
        assert v == xs[..n][i];
      }
      SetOfSeqSize(xs[..n], rest);
      assert s <= rest + {xs[n]};
      assert xs[n] in s ==> s == rest + {xs[n]};
      assert xs[n] !in s ==> s == rest;
    }
  }

  /** The degrees that `init_colors` writes are bounds at every position. */
  lemma InitDegrees(g: Graph, r: seq<Vertex>, r': seq<Vertex>, q: nat, qmax: nat)
    requires DegreeSorted(g, r) && |r| > 0 && |r'| == |r| && Ids(r') == Ids(r)
    requires forall p | 0 <= p < |r| :: r'[p].d == if p < r[0].d then p + 1 else r[0].d + 1
    ensures DegreesOk(g, r', 0, q, qmax)
  {
    hide IsClique, Descending;
    forall p | 0 <= p < |r'| ensures DegreeBounds(g, r', p) {
      var front := Ids(r'[..p + 1]);
      forall s: set<nat> | IsClique(g, s) && s <= ToSet(front) ensures |s| <= r'[p].d {
        SetOfSeqSize(front, s);
        assert s <= ToSet(Ids(r)) by {
          forall x | x in s ensures x in Ids(r) {
            var i :| 0 <= i < |front| && front[i] == x;
            assert Ids(r')[i] == x;
          }
        }
        DegreeBound(g, r, s);
      }
    }
  }

  // ----- one branch of the search -----

  ghost predicate InGraph(g: Graph, ids: seq<nat>) {
    forall v | v in ids :: v < |g|
  }

  /** The search may go on: the vertices of Q are joined to each other and to all candidates. */
  ghost predicate Joined(g: Graph, q: seq<nat>, ids: seq<nat>) {
    && Distinct(q + ids) && IsClique(g, ToSet(q))
    && InGraph(g, q) && InGraph(g, ids)
    && forall u, v | u in q && v in ids :: Adjacent(g, u, v) && Adjacent(g, v, u)
  }

  /** `cut2`: the candidates before the last one that are joined to it. */
  function Neighbours(g: Graph, u: nat, ids: seq<nat>): (r: seq<nat>)
    ensures |r| <= |ids|
    ensures forall v :: v in r <==> v in ids && Adjacent(g, u, v)
  {
    if ids == [] then []
    else
      var n := |ids| - 1;
      assert ids == ids[..n] + [ids[n]];
      Neighbours(g, u, ids[..n]) + if Adjacent(g, u, ids[n]) then [ids[n]] else []
  }

  lemma {:induction false} NeighboursDistinct(g: Graph, u: nat, ids: seq<nat>)
    requires Distinct(ids)
    ensures Distinct(Neighbours(g, u, ids))
  {
    if ids != [] {
      var n := |ids| - 1;
      NeighboursDistinct(g, u, ids[..n]);
      assert ids[n] !in ids[..n];
    }
  }

  lemma JoinedPrefix(g: Graph, q: seq<nat>, ids: seq<nat>, n: nat)
    requires Joined(g, q, ids) && n <= |ids|
    ensures Joined(g, q, ids[..n])
  {
    assert q + ids[..n] == (q + ids)[..|q| + n];
    assert forall v | v in ids[..n] :: v in ids;
  }

  /** Taking the last candidate into Q leaves its neighbours as candidates. */
  lemma JoinedStep(g: Graph, q: seq<nat>, ids: seq<nat>)
    requires IsGraph(g) && Joined(g, q, ids) && ids != []
    ensures var n := |ids| - 1; Joined(g, q + [ids[n]], Neighbours(g, ids[n], ids[..n]))
  {
    var n := |ids| - 1;
    var u := ids[n];
    var nb := Neighbours(g, u, ids[..n]);
    var q' := q + [u];
    assert u in ids;
    StepDistinct(g, q, ids);
    forall x, y | x in ToSet(q') && y in ToSet(q') && x != y ensures Adjacent(g, x, y) {
      assert x in q || x == u;
      assert y in q || y == u;
      assert x in q ==> x in ToSet(q);
      assert y in q ==> y in ToSet(q);
    }
    forall x, v | x in q' && v in nb ensures Adjacent(g, x, v) && Adjacent(g, v, x) {
      assert v in ids[..n];
      assert v in ids;
      assert x in q || x == u;
      AdjacentSymmetric(g, x, v);
    }
  }

  lemma AdjacentSymmetric(g: Graph, u: nat, v: nat)
    requires IsGraph(g)
    ensures Adjacent(g, u, v) <==> Adjacent(g, v, u)
  {
  }

  lemma StepDistinct(g: Graph, q: seq<nat>, ids: seq<nat>)
    requires Distinct(q + ids) && ids != []
    ensures var n := |ids| - 1; Distinct(q + [ids[n]] + Neighbours(g, ids[n], ids[..n]))
  {
    var n := |ids| - 1;
    var nb := Neighbours(g, ids[n], ids[..n]);
    DistinctParts(q, ids);
    assert Distinct(ids[..n]);
    NeighboursDistinct(g, ids[n], ids[..n]);
    var w := q + [ids[n]];
    forall i, j | 0 <= i < |w| && 0 <= j < |nb| ensures w[i] != nb[j] {
      assert nb[j] in ids[..n];
      var k :| 0 <= k < n && ids[..n][k] == nb[j];
      assert (q + ids)[|q| + k] == nb[j];
      if i < |q| {
        assert (q + ids)[i] == w[i];
      } else {
        assert (q + ids)[|q| + n] == w[i];
      }
    }
    forall i, j | 0 <= i < j < |w| ensures w[i] != w[j] {
      assert (q + ids)[i] == w[i];
      assert (q + ids)[if j < |q| then j else |q| + n] == w[j];
    }
  }

  lemma DistinctParts(a: seq<nat>, b: seq<nat>)
    requires Distinct(a + b)
    ensures Distinct(a) && Distinct(b)
  {
    assert forall i | 0 <= i < |a| :: (a + b)[i] == a[i];
    forall i, j | 0 <= i < j < |b| ensures b[i] != b[j] {
      assert (a + b)[|a| + i] == b[i] && (a + b)[|a| + j] == b[j];
    }
  }

  /** Reordering the candidates changes nothing. */
  lemma JoinedPermutation(g: Graph, q: seq<nat>, a: seq<nat>, b: seq<nat>)
    requires Joined(g, q, a) && multiset(a) == multiset(b)
    ensures Joined(g, q, b) && ToSet(a) == ToSet(b)
  {
    assert multiset(q + a) == multiset(q + b);
    DistinctPermutation(q + a, q + b);
    DistinctParts(q, a);
    DistinctPermutation(a, b);
    assert forall v :: v in b ==> v in ToSet(b);
    assert forall v :: v in ToSet(a) ==> v in a;
  }

  // ----- the number of steps -----

  ghost predicate JoinedTo(g: Graph, s: set<nat>, v: nat) {
    v < |g| && v !in s && forall u | u in s :: Adjacent(g, u, v)
  }

  /** A non-empty clique whose vertices have a common neighbour. */
  ghost predicate Extendable(g: Graph, s: set<nat>) {
    s != {} && IsClique(g, s) && (forall u | u in s :: u < |g|) && exists v: nat :: JoinedTo(g, s, v)
  }

  /** The extendable cliques that consist of q and some vertices of c. */
  ghost function Span(g: Graph, q: set<nat>, c: set<nat>): (r: set<set<nat>>) {
    set s: set<nat> | s <= q + c && q <= s && s != q && Extendable(g, s)
  }

  ghost function Steps(g: Graph, q: seq<nat>, ids: seq<nat>): (r: nat) {
    |Span(g, ToSet(q), ToSet(ids))|
  }

  /** All extendable cliques of the graph. */
  ghost function ExtendableCliques(g: Graph): (r: set<set<nat>>) {
    set s: set<nat> | s <= Below(|g|) && Extendable(g, s)
  }

  ghost function Below(n: nat): (r: set<nat>)
    ensures forall v: nat :: v in r <==> v < n
  {
    if n == 0 then {} else Below(n - 1) + {n - 1}
  }

  /** The cliques with the last candidate, and those without it. */
  lemma SpanSplit(g: Graph, q: set<nat>, c: set<nat>, u: nat, nb: set<nat>)
    requires u !in q && u !in c && nb <= c
    ensures |Span(g, q, c)| + |Span(g, q + {u}, nb)| + (if Extendable(g, q + {u}) then 1 else 0) <= |Span(g, q, c + {u})|
  {
    hide Extendable;
    var all, without, with := Span(g, q, c + {u}), Span(g, q, c), Span(g, q + {u}, nb);
    var one: set<set<nat>> := if Extendable(g, q + {u}) then {q + {u}} else {};
    assert u in q + {u};
    forall s | s in without ensures u !in s && s in all {
    }
    forall s | s in with ensures u in s && s in all && s != q + {u} {
    }
    assert without !! with && without !! one && with !! one;
    FewerSets(without + with + one, all);
  }

  lemma FewerSets(a: set<set<nat>>, b: set<set<nat>>)
    requires a <= b
    ensures |a| <= |b|
  {
    assert b == a + (b - a);
  }

  /** One round of the loop over the candidates. */
  lemma StepsSplit(g: Graph, q: seq<nat>, ids: seq<nat>)
    requires IsGraph(g) && ids != [] && Joined(g, q, ids)
    ensures var n := |ids| - 1; var u := ids[n]; var nb := Neighbours(g, u, ids[..n]);
            Steps(g, q, ids[..n]) + Steps(g, q + [u], nb) + (if nb != [] then 1 else 0) <= Steps(g, q, ids)
  {
    var n := |ids| - 1;
    var u := ids[n];
    var nb := Neighbours(g, u, ids[..n]);
    JoinedStep(g, q, ids);
    LastApart(q, ids);
    assert ToSet(q + [u]) == ToSet(q) + {u};
    assert ToSet(ids) == ToSet(ids[..n]) + {u} by {
      assert ids == ids[..n] + [u];
    }
    assert ToSet(nb) <= ToSet(ids[..n]);
    if nb != [] {
      CanExtend(g, q + [u], nb);
    }
    SpanSplit(g, ToSet(q), ToSet(ids[..n]), u, ToSet(nb));
  }

  lemma LastApart(q: seq<nat>, ids: seq<nat>)
    requires Distinct(q + ids) && ids != []
    ensures var n := |ids| - 1; ids[n] !in ToSet(q) && ids[n] !in ToSet(ids[..n])
  {
    var n := |ids| - 1;
    var w := q + ids;
    forall i | 0 <= i < |q| ensures q[i] != ids[n] {
      assert w[i] == q[i] && w[|q| + n] == ids[n];
    }
    forall i | 0 <= i < n ensures ids[i] != ids[n] {
      assert w[|q| + i] == ids[i] && w[|q| + n] == ids[n];
    }
  }

  /** Candidates make a clique extendable. */
  lemma CanExtend(g: Graph, q: seq<nat>, ids: seq<nat>)
    requires Joined(g, q, ids) && q != [] && ids != []
    ensures Extendable(g, ToSet(q))
  {
    var v := ids[0];
    assert v in ids && q[0] in ToSet(q);
    forall i | 0 <= i < |q| ensures q[i] != v {
      assert (q + ids)[i] == q[i] && (q + ids)[|q|] == v;
    }
    assert JoinedTo(g, ToSet(q), v);
  }

  lemma StepsPermutation(g: Graph, q: seq<nat>, a: seq<nat>, b: seq<nat>)
    requires ToSet(a) == ToSet(b)
    ensures Steps(g, q, a) == Steps(g, q, b)
  {
  }

  lemma StepsAll(g: Graph, all: seq<nat>)
    requires |all| == |g| && forall p | 0 <= p < |all| :: all[p] == p
    ensures Steps(g, [], all) == |ExtendableCliques(g)|
  {
    var vs := Below(|g|);
    forall v: nat ensures v in ToSet(all) <==> v in vs {
      if v < |g| {
        assert all[v] == v;
      }
    }
    assert ToSet(all) == vs && ToSet<nat>([]) == {};
    hide Extendable;
    forall s: set<nat> ensures s in Span(g, {}, vs) <==> s in ExtendableCliques(g) {
      if Extendable(g, s) {
        NotEmpty(g, s);
      }
    }
    assert Span(g, {}, vs) == ExtendableCliques(g);
  }

  lemma NotEmpty(g: Graph, s: set<nat>)
    requires Extendable(g, s)
    ensures s != {}
  {
  }

  /** Every non-empty clique among `ids`, together with q more vertices, is no larger than `qmax`. */
  ghost predicate Searched(g: Graph, ids: seq<nat>, q: nat, qmax: nat) {
    forall s: set<nat> | s != {} && IsClique(g, s) && s <= ToSet(ids) :: q + |s| <= qmax
  }

  /** The same for the cliques that are not among the first n candidates. */
  ghost predicate SearchedFrom(g: Graph, ids: seq<nat>, n: nat, q: nat, qmax: nat)
    requires n <= |ids|
  {
    forall s: set<nat> | s != {} && IsClique(g, s) && s <= ToSet(ids) :: s <= ToSet(ids[..n]) || q + |s| <= qmax
  }

  lemma SearchedStart(g: Graph, ids: seq<nat>, q: nat, qmax: nat)
    ensures SearchedFrom(g, ids, |ids|, q, qmax)
  {
    assert ids[..|ids|] == ids;
  }

  lemma SearchedStop(g: Graph, ids: seq<nat>, n: nat, q: nat, qmax: nat)
    requires n <= |ids| && SearchedFrom(g, ids, n, q, qmax) && (n == 0 || Searched(g, ids[..n], q, qmax))
    ensures Searched(g, ids, q, qmax)
  {
    hide IsClique;
  }

  lemma WithoutLast(ids: seq<nat>, s: set<nat>)
    requires ids != [] && s <= ToSet(ids)
    ensures s - {ids[|ids| - 1]} <= ToSet(ids[..|ids| - 1])
  {
    var n := |ids| - 1;
    forall v | v in s - {ids[n]} ensures v in ids[..n] {
      var i :| 0 <= i < |ids| && ids[i] == v;
      assert v == ids[..n][i];
    }
  }

  /** All cliques through the last candidate lie among its neighbours, the others among the rest. */
  lemma SearchedStep(g: Graph, ids: seq<nat>, n: nat, q: nat, qmax: nat, qmax': nat)
    requires n < |ids| && SearchedFrom(g, ids, n + 1, q, qmax) && qmax <= qmax'
    requires Searched(g, Neighbours(g, ids[n], ids[..n]), q + 1, qmax') && q + 1 <= qmax'
    ensures SearchedFrom(g, ids, n, q, qmax')
  {
    hide Neighbours;
    var u := ids[n];
    forall s: set<nat> | s != {} && IsClique(g, s) && s <= ToSet(ids) ensures s <= ToSet(ids[..n]) || q + |s| <= qmax' {
      if s <= ToSet(ids[..n + 1]) {
        var rest := s - {u};
        WithoutLast(ids[..n + 1], s);
        assert ids[..n + 1][..n] == ids[..n];
        if u in s {
          assert IsClique(g, rest);
          assert forall v | v in rest :: Adjacent(g, u, v);
          assert rest <= ToSet(Neighbours(g, u, ids[..n]));
          assert |s| == |rest| + 1;
        } else {
          assert s == rest;
        }
      }
    }
  }

  lemma SearchedNonEmpty(g: Graph, ids: seq<nat>, q: nat, qmax: nat)
    requires Searched(g, ids, q, qmax) && ids != []
    ensures q + 1 <= qmax
  {
    var s := {ids[0]};
    assert IsClique(g, s);
  }

  lemma SearchedPermutation(g: Graph, a: seq<nat>, b: seq<nat>, q: nat, qmax: nat)
    requires Searched(g, a, q, qmax) && multiset(a) == multiset(b)
    ensures Searched(g, b, q, qmax)
  {
    forall v ensures v in a <==> v in b {
      assert v in multiset(a) <==> v in multiset(b);
    }
    assert ToSet(a) == ToSet(b);
  }

  /** The test that stops the loop is sound: at the stop mark, and wherever a degree is read. */
  lemma StopSound(g: Graph, r: seq<Vertex>, j: nat, q: nat, qmax0: nat, sz: nat, qmax: nat)
    requires DegreesOk(g, r, j, q, qmax0) && qmax0 <= qmax && 0 < sz <= |r| && j <= sz
    requires q + r[sz - 1].d <= qmax
    ensures Searched(g, Ids(r[..sz]), q, qmax)
  {
    hide IsClique;
    if sz == j {
      assert CliqueBound(g, Ids(r[..j]), qmax0 - q);
    } else {
      assert DegreeBounds(g, r, sz - 1);
    }
  }

  lemma DegreesStart(g: Graph, r: seq<Vertex>, j: nat, q: nat, qmax: nat)
    requires DegreesOk(g, r, j, q, qmax)
    ensures j <= |r|
  {
  }

  /** At the stop mark the test always stops. */
  lemma StopMark(g: Graph, r: seq<Vertex>, j: nat, q: nat, qmax0: nat, sz: nat, qmax: nat)
    requires DegreesOk(g, r, j, q, qmax0) && qmax0 <= qmax && 0 < sz <= |r| && j <= sz
    requires q + r[sz - 1].d > qmax
    ensures j < sz
  {
  }

  /** `std::sort` by descending degree. */
  function Insert(x: Vertex, r: seq<Vertex>): (s: seq<Vertex>)
    requires Descending(r)
    ensures Descending(s) && multiset(s) == multiset(r) + multiset{x}
  {
    if r == [] then [x]
    else if x.d >= r[0].d then [x] + r
    else
      assert r == [r[0]] + r[1..];
      var rest := Insert(x, r[1..]);
      DescendingCons(r[0], rest, x, r[1..]);
      [r[0]] + rest
  }

  lemma DescendingCons(y: Vertex, s: seq<Vertex>, x: Vertex, r: seq<Vertex>)
    requires Descending(s) && multiset(s) == multiset(r) + multiset{x} && y.d >= x.d && forall v | v in r :: y.d >= v.d
    ensures Descending([y] + s)
  {
    forall p | 0 <= p < |s| ensures y.d >= s[p].d {
      assert s[p] in multiset(r) + multiset{x};
    }
  }

  function Sorted(r: seq<Vertex>): (s: seq<Vertex>)
    ensures Descending(s) && multiset(s) == multiset(r)
  {
    if r == [] then []
    else
      assert r == [r[0]] + r[1..];
      Insert(r[0], Sorted(r[1..]))
  }

  method SortDescending(R: array<Vertex>)
    modifies R
    ensures Descending(R[..]) && multiset(R[..]) == multiset(old(R[..]))
  {
    var s := Sorted(R[..]);
    assert |s| == |multiset(s)| == R.Length;
    forall p | 0 <= p < R.Length {
      R[p] := s[p];
    }
    assert R[..] == s;
  }

  class Maxclique {
    const g: Graph
    var Q: seq<nat>
    var QMAX: seq<nat>
    var C: Classes
    var pk: nat

    ghost predicate Valid()
      reads this
    {
      IsGraph(g) && |C| == |g| + 1
    }

    /** The first loop of `color_sort`. */
    method ColourAll(R: array<Vertex>, lo: nat) returns (j: nat, maxno: nat)
      requires Valid() && 1 <= R.Length < |g| && 1 <= lo
      modifies R, this`C
      ensures Valid() && j <= R.Length
      ensures Coloured(g, Ids(old(R[..])), R.Length, Ids(R[..j]), C, maxno, lo)
    {
      hide Coloured, Flat, IsGraph, Independent, Adjacent;
      ghost var ids := Ids(R[..]);
      j, maxno := 0, 1;
      C := C[1 := []][2 := []];
      ColouredStart(g, ids, C, lo);
      for i := 0 to R.Length
        invariant Valid() && j <= i && maxno <= i + 1 && (i == 0 ==> C[1] == [] && maxno == 1) && (i > 0 ==> maxno <= i)
        invariant Coloured(g, ids, i, Ids(R[..j]), C, maxno, lo)
        invariant forall p | i <= p < R.Length :: R[p].i == ids[p]
      {
        ColouredFacts(g, ids, i, Ids(R[..j]), C, maxno, lo);
        var pi := R[i].i;
        var k := FirstClass(g, pi, C, maxno);
        if k > maxno {
          OpenClass(g, ids, i, Ids(R[..j]), C, maxno, lo);
          maxno := k;
          C := C[maxno + 1 := []];
        }
        PushClass(g, ids, i, Ids(R[..j]), C, maxno, lo, k, C[k := C[k] + [pi]]);
        C := C[k := C[k] + [pi]];
        if k < lo {
          ghost var before := R[..j];
          R[j] := R[j].(i := pi);
          assert R[..j + 1] == before + [R[j]];
          assert Ids(R[..j + 1]) == Ids(before) + [pi];
          j := j + 1;
        }
      }
    }

    /** The second loop of `color_sort`. */
    method WriteOut(R: array<Vertex>, j: nat, lo: nat, maxno: nat, ghost ids: seq<nat>)
      requires |ids| == R.Length && j <= R.Length && 1 <= lo
      requires Coloured(g, ids, R.Length, Ids(R[..j]), C, maxno, lo)
      modifies R
      ensures R[..j] == old(R[..j])
      ensures Ids(R[j..]) == Flat(C, lo, maxno + 1)
      ensures forall a | j <= a < R.Length :: R[a].d <= maxno && WrittenAt(R[..], j, a, C, lo)
    {
      hide Coloured, WrittenAt;
      ghost var front := R[..j];
      ColouredSize(g, ids, Ids(R[..j]), C, maxno, lo);
      ColouredFacts(g, ids, R.Length, Ids(R[..j]), C, maxno, lo);
      if lo > maxno {
        assert R[j..] == [];
        return;
      }
      var p := j;
      var k := lo;
      WrittenStart(R[..], j, C, lo);
      while k <= maxno
        invariant lo <= k <= maxno + 1 && R[..j] == front
        invariant Written(R[..], j, p, C, lo, k, 0)
      {
        FlatSizes(C, lo, k, maxno + 1);
        for i := 0 to |C[k]|
          invariant R[..j] == front && Written(R[..], j, p, C, lo, k, i)
        {
          ghost var before := R[..];
          WrittenSize(before, j, p, C, lo, k, i);
          R[p] := Vertex(C[k][i], k);
          assert R[..] == before[p := Vertex(C[k][i], k)];
          WriteVertex(before, R[..], j, p, C, lo, k, i);
          p := p + 1;
        }
        NextClass(R[..], j, p, C, lo, k);
        k := k + 1;
      }
      WrittenEnd(R[..], j, p, C, lo, k);
    }

    /**
     `color_sort`: greedy colouring. Vertices of colours too low to beat the best clique come
     first, with one degree 0 as a stop mark; the others follow by colour, with their colour
     as degree.
     */
    method ColorSort(R: array<Vertex>) returns (ghost j: nat)
      requires Valid() && 1 <= R.Length < |g|
      modifies R, this`C
      ensures Valid() && ColourSorted(g, Ids(old(R[..])), R[..], j, |Q|, |QMAX|)
    {
      hide Coloured, Flat, WrittenAt, DegreesOk, Independent, AllIn;
      ghost var ids := Ids(R[..]);
      var minK := |QMAX| - |Q| + 1;
      var lo := if minK < 1 then 1 else minK;
      var kept, maxno := ColourAll(R, lo);
      j := kept;
      ghost var front := Ids(R[..kept]);
      if kept > 0 {
        R[kept - 1] := R[kept - 1].(d := 0);
      }
      assert Ids(R[..kept]) == front;
      WriteOut(R, kept, lo, maxno, ids);
      assert Ids(R[..kept]) == front;
      SortedEnd(g, ids, R[..], j, C, lo, maxno, |Q|, |QMAX|);
    }

    /** `set_degrees`. */
    method SetDegrees(R: array<Vertex>)
      modifies R
      ensures Ids(R[..]) == old(Ids(R[..]))
      ensures forall p | 0 <= p < R.Length :: R[p].d == Degree(g, R[p].i, Ids(R[..]))
    {
      ghost var ids := Ids(R[..]);
      for i := 0 to R.Length
        invariant Ids(R[..]) == ids
        invariant forall p | 0 <= p < i :: R[p].d == Degree(g, R[p].i, ids)
      {
        var d := 0;
        for j := 0 to R.Length
          invariant d == Degree(g, R[i].i, ids[..j])
        {
          assert ids[..j + 1][..j] == ids[..j] && R[j].i == ids[j];
          if Adjacent(g, R[i].i, R[j].i) {
            d := d + 1;
          }
        }
        assert ids[..R.Length] == ids;
        R[i] := R[i].(d := d);
      }
    }

    /** `degree_sort`. */
    method DegreeSort(R: array<Vertex>)
      modifies R
      ensures multiset(Ids(R[..])) == multiset(old(Ids(R[..]))) && DegreeSorted(g, R[..])
    {
      SetDegrees(R);
      ghost var before := R[..];
      SortDescending(R);
      SortedDegrees(g, before, R[..]);
    }

    /** `init_colors`. */
    method InitColors(R: array<Vertex>)
      requires R.Length > 0 && DegreeSorted(g, R[..])
      modifies R
      ensures Ids(R[..]) == old(Ids(R[..])) && DegreesOk(g, R[..], 0, |Q|, |QMAX|)
    {
      hide DegreesOk, DegreeSorted;
      ghost var before := R[..];
      var maxDegree := R[0].d;
      SortedDegreeBound(g, before);
      for i := 0 to maxDegree
        invariant Ids(R[..]) == Ids(before)
        invariant forall p | 0 <= p < i :: R[p].d == p + 1
      {
        R[i] := R[i].(d := i + 1);
      }
      for i := maxDegree to R.Length
        invariant Ids(R[..]) == Ids(before)
        invariant forall p | 0 <= p < maxDegree :: R[p].d == p + 1
        invariant forall p | maxDegree <= p < i :: R[p].d == maxDegree + 1
      {
        R[i] := R[i].(d := maxDegree + 1);
      }
      InitDegrees(g, before, R[..], |Q|, |QMAX|);
    }

    /** `cut2` into a new array. The degrees there mean nothing yet. */
    method Cut2(A: array<Vertex>, sz: nat) returns (B: array<Vertex>)
      requires 0 < sz <= A.Length
      ensures fresh(B) && Ids(B[..]) == Neighbours(g, A[sz - 1].i, Ids(A[..sz - 1]))
    {
      ghost var ids := Ids(A[..sz - 1]);
      var b: seq<Vertex> := [];
      for i := 0 to sz - 1
        invariant Ids(b) == Neighbours(g, A[sz - 1].i, ids[..i])
      {
        assert ids[..i + 1][..i] == ids[..i] && ids[i] == A[i].i;
        if Adjacent(g, A[sz - 1].i, A[i].i) {
          var d: nat := *;
          b := b + [Vertex(A[i].i, d)];
        }
      }
      assert ids[..sz - 1] == ids;
      B := new Vertex[|b|](p requires 0 <= p < |b| => b[p]);
      assert B[..] == b;
    }

    /** The best clique found so far is a clique. */
    ghost predicate BestOk()
      reads this
    {
      Distinct(QMAX) && IsClique(g, ToSet(QMAX)) && InGraph(g, QMAX)
    }

    /**
     `expand`, and with a step limit `expand_dyn`. The degrees of the first j - 1 vertices are
     never read. Without a break, every way to enlarge Q by candidates was beaten.
     */
    method Expand(R: array<Vertex>, ghost j: nat, limit: Option<nat>) returns (ghost complete: bool)
      requires Valid() && BestOk() && R.Length <= |g|
      requires Joined(g, Q, Ids(R[..])) && DegreesOk(g, R[..], j, |Q|, |QMAX|)
      modifies this`Q, this`QMAX, this`C, this`pk
      ensures Valid() && BestOk() && Q == old(Q) && |QMAX| >= old(|QMAX|) && pk >= old(pk)
      ensures pk <= old(pk) + Steps(g, Q, Ids(R[..]))
      ensures complete ==> Searched(g, Ids(R[..]), |Q|, |QMAX|)
      ensures limit.None? || pk <= limit.value ==> complete
      decreases R.Length, 1
    {
      hide Steps, Joined, DegreesOk, Searched, Neighbours, IsGraph, IsClique, Distinct, InGraph;
      var sz := R.Length;
      ghost var q0, qmax0 := Q, |QMAX|;
      ghost var ids := Ids(R[..]);
      complete := true;
      SearchedStart(g, ids, |Q|, |QMAX|);
      assert ids[..R.Length] == ids;
      DegreesStart(g, R[..], j, |Q|, |QMAX|);
      while sz > 0
        invariant 0 <= sz <= R.Length && j <= sz
        invariant Valid() && BestOk() && Q == q0 && |QMAX| >= qmax0 && pk >= old(pk)
        invariant pk + Steps(g, Q, ids[..sz]) <= old(pk) + Steps(g, Q, ids)
        invariant complete ==> SearchedFrom(g, ids, sz, |Q|, |QMAX|)
        invariant !complete ==> limit.Some? && pk > limit.value
      {
        if limit.Some? && pk > limit.value {
          complete := false;
          break;
        }
        if |Q| + R[sz - 1].d <= |QMAX| {
          StopSound(g, R[..], j, |Q|, qmax0, sz, |QMAX|);
          assert Ids(R[..][..sz]) == ids[..sz];
          if complete {
            SearchedStop(g, ids, sz, |Q|, |QMAX|);
          }
          return;
        }
        StopMark(g, R[..], j, |Q|, qmax0, sz, |QMAX|);
        JoinedPrefix(g, Q, ids, sz);
        assert Ids(R[..sz]) == ids[..sz] && Ids(R[..sz - 1]) == ids[..sz - 1];
        ghost var qmax1 := |QMAX|;
        StepsSplit(g, Q, ids[..sz]);
        assert ids[..sz][..sz - 1] == ids[..sz - 1];
        ghost var done := Branch(R, sz, limit);
        complete := complete && done;
        sz := sz - 1;
        if complete {
          SearchedStep(g, ids, sz, |Q|, qmax1, |QMAX|);
        }
      }
      if complete {
        SearchedStop(g, ids, 0, |Q|, |QMAX|);
      }
    }

    /** One round of the loop: the last candidate joins Q, its neighbours are searched, and it leaves again. */
    method Branch(R: array<Vertex>, sz: nat, limit: Option<nat>) returns (ghost complete: bool)
      requires Valid() && BestOk() && 0 < sz <= R.Length <= |g|
      requires Joined(g, Q, Ids(R[..sz]))
      modifies this`Q, this`QMAX, this`C, this`pk
      ensures Valid() && BestOk() && Q == old(Q) && |QMAX| >= old(|QMAX|) && pk >= old(pk)
      ensures var nb := Neighbours(g, R[sz - 1].i, Ids(R[..sz - 1]));
              pk <= old(pk) + Steps(g, Q + [R[sz - 1].i], nb) + if nb != [] then 1 else 0
      ensures complete ==> |Q| + 1 <= |QMAX|
      ensures complete ==> Searched(g, Neighbours(g, R[sz - 1].i, Ids(R[..sz - 1])), |Q| + 1, |QMAX|)
      ensures !complete ==> limit.Some? && pk > limit.value
      decreases R.Length, 0
    {
      hide Steps, Joined, DegreesOk, Searched, Neighbours, IsGraph, IsClique, Distinct, InGraph, ColourSorted;
      ghost var q0 := Q;
      ghost var ids := Ids(R[..sz]);
      complete := true;
      assert Ids(R[..sz - 1]) == ids[..sz - 1];
      JoinedStep(g, Q, ids);
      Q := Q + [R[sz - 1].i];
      var Rp := Cut2(R, sz);
      ghost var nb := Ids(Rp[..]);
      if Rp.Length > 0 {
        complete := SearchNeighbours(Rp, limit);
      } else {
        JoinedClique(g, Q, nb);
        SearchedNothing(g, |Q|, |QMAX|);
        if |Q| > |QMAX| {
          QMAX := Q;
        }
        SearchedNothing(g, |Q|, |QMAX|);
      }
      Q := Q[..|Q| - 1];
      assert Q == q0;
    }

    /** The neighbours are coloured and searched. */
    method SearchNeighbours(R: array<Vertex>, limit: Option<nat>) returns (ghost complete: bool)
      requires Valid() && BestOk() && 0 < R.Length < |g| && Joined(g, Q, Ids(R[..]))
      modifies R, this`Q, this`QMAX, this`C, this`pk
      ensures Valid() && BestOk() && Q == old(Q) && |QMAX| >= old(|QMAX|) && pk >= old(pk)
      ensures pk <= old(pk) + 1 + Steps(g, Q, old(Ids(R[..])))
      ensures complete ==> |Q| + 1 <= |QMAX| && Searched(g, old(Ids(R[..])), |Q|, |QMAX|)
      ensures !complete ==> limit.Some? && pk > limit.value
      decreases R.Length, 2
    {
      hide Steps, Joined, DegreesOk, Searched, IsGraph, IsClique, Distinct, InGraph, ColourSorted, DegreeSorted;
      ghost var nb := Ids(R[..]);
      pk := pk + 1;
      var resort: bool := *;
      if limit.Some? && resort {
        DegreeSort(R);
      }
      ghost var nb1 := Ids(R[..]);
      ghost var j := ColorSort(R);
      ghost var nb2 := Ids(R[..]);
      SortedFacts(g, nb1, R[..], j, |Q|, |QMAX|);
      JoinedPermutation(g, Q, nb, nb2);
      StepsPermutation(g, Q, nb, nb2);
      complete := Expand(R, j, limit);
      if complete {
        SearchedPermutation(g, nb2, nb, |Q|, |QMAX|);
        SearchedNonEmpty(g, nb, |Q|, |QMAX|);
      }
    }

    /** A graph with all its vertices as candidates. */
    constructor (conn: Graph)
      requires IsGraph(conn) && |conn| > 0
      ensures Valid() && g == conn && Q == [] && QMAX == [] && pk == 0
    {
      g := conn;
      Q, QMAX, pk := [], [], 0;
      C := seq(|conn| + 1, _ => []);
    }

    /** `_mcq`: a clique, and a maximum one unless the step limit was hit. */
    method Mcq(limit: Option<nat>) returns (maxclique: seq<nat>, ghost complete: bool)
      requires Valid() && Q == [] && QMAX == [] && |g| > 0
      modifies this`Q, this`QMAX, this`C, this`pk
      ensures Distinct(maxclique) && IsClique(g, ToSet(maxclique)) && InGraph(g, maxclique)
      ensures complete ==> forall s: set<nat> | IsClique(g, s) && (forall v | v in s :: v < |g|) :: |s| <= |maxclique|
      ensures limit.None? || pk <= limit.value ==> complete
      ensures pk <= old(pk) + |ExtendableCliques(g)|
      ensures limit.None? || old(pk) + |ExtendableCliques(g)| <= limit.value ==>
                forall s: set<nat> | IsClique(g, s) && (forall v | v in s :: v < |g|) :: |s| <= |maxclique|
    {
      hide Steps, ExtendableCliques, Joined, DegreesOk, DegreeSorted, IsGraph;
      var V := new Vertex[|g|](p requires 0 <= p => Vertex(p, 0));
      ghost var all := Ids(V[..]);
      assert forall p | 0 <= p < |all| :: all[p] == p;
      AllJoined(g, all);
      DegreeSort(V);
      InitColors(V);
      ghost var ids := Ids(V[..]);
      JoinedPermutation(g, [], all, ids);
      StepsAll(g, all);
      StepsPermutation(g, [], all, ids);
      complete := Expand(V, 0, limit);
      maxclique := QMAX;
      if complete {
        AllSearched(g, all, ids, |QMAX|);
      }
    }
  }

  lemma AllJoined(g: Graph, all: seq<nat>)
    requires Distinct(all) && InGraph(g, all)
    ensures Joined(g, [], all)
  {
    assert [] + all == all;
  }

  lemma AllSearched(g: Graph, all: seq<nat>, ids: seq<nat>, qmax: nat)
    requires |all| == |g| && (forall p | 0 <= p < |all| :: all[p] == p) && ToSet(all) == ToSet(ids)
    requires Searched(g, ids, 0, qmax)
    ensures forall s: set<nat> | IsClique(g, s) && (forall v | v in s :: v < |g|) :: |s| <= qmax
  {
    hide IsClique;
    forall s: set<nat> | IsClique(g, s) && (forall v | v in s :: v < |g|) ensures |s| <= qmax {
      assert s <= ToSet(all) by {
        forall v | v in s ensures v in all {
          assert all[v] == v;
        }
      }
    }
  }

  lemma SortedFacts(g: Graph, ids: seq<nat>, r: seq<Vertex>, j: nat, q: nat, qmax: nat)
    requires ColourSorted(g, ids, r, j, q, qmax)
    ensures multiset(Ids(r)) == multiset(ids) && DegreesOk(g, r, j, q, qmax)
  {
  }

  lemma JoinedClique(g: Graph, q: seq<nat>, ids: seq<nat>)
    requires Joined(g, q, ids)
    ensures Distinct(q) && IsClique(g, ToSet(q)) && InGraph(g, q)
  {
    DistinctParts(q, ids);
  }

  lemma SearchedNothing(g: Graph, q: nat, qmax: nat)
    ensures Searched(g, [], q, qmax)
  {
  }

  /** Both loops together. */
  lemma SortedEnd(g: Graph, ids: seq<nat>, r: seq<Vertex>, j: nat, c: Classes, lo: nat, maxno: nat, q: nat, qmax: nat)
    requires IsGraph(g) && |r| == |ids| && j <= |r|
    requires Coloured(g, ids, |ids|, Ids(r[..j]), c, maxno, lo)
    requires Ids(r[j..]) == Flat(c, lo, maxno + 1)
    requires forall a | j <= a < |r| :: r[a].d <= maxno && WrittenAt(r, j, a, c, lo)
    requires lo == (if qmax - q + 1 < 1 then 1 else qmax - q + 1) && (j > 0 ==> r[j - 1].d == 0)
    ensures ColourSorted(g, ids, r, j, q, qmax)
  {
    hide DegreesOk, WrittenAt, Independent, Coloured, Flat, AllIn, IsGraph;
    assert Ids(r) == Ids(r[..j]) + Ids(r[j..]);
    ColouredEnd(g, ids, Ids(r[..j]), c, maxno, lo);
    ColourDegrees(g, r, j, c, lo, maxno, q, qmax);
  }

  lemma ColouredEnd(g: Graph, ids: seq<nat>, kept: seq<nat>, c: Classes, maxno: nat, lo: nat)
    requires Coloured(g, ids, |ids|, kept, c, maxno, lo)
    ensures 1 <= lo && maxno + 1 < |c| && forall k | 1 <= k <= maxno :: Independent(g, c[k])
    ensures multiset(kept) + multiset(Flat(c, lo, maxno + 1)) == multiset(ids)
    ensures AllIn(kept, Flat(c, 1, Top(lo, maxno)))
    ensures kept != [] ==> lo > 1
  {
    hide Independent;
    assert ids[..|ids|] == ids;
    if kept != [] {
      assert kept[0] in Flat(c, 1, Top(lo, maxno));
    }
  }
}
