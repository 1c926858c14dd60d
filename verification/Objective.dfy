/**
 The objective that the MaxSAT engine carries: the lower bound, the weights of
 falsified soft literals, the cores whose counter is not built yet, and for each
 live counter the part of its count that has no soft literal yet.
 */
module Objective {
  import opened Cnf
  import opened Definitions

  /** A soft counter output: output `k` of counter `card`, created with weight `w0`. */
  datatype LitCard = LitCard(card: nat, k: nat, w0: nat)

  /** A core waiting for its counter. */
  datatype Pending = Pending(lits: seq<Lit>, w: nat)

  datatype Formula = Formula(
    poids: map<nat, int>,          // weight of each variable, its sign the soft polarity
    a2c: map<nat, LitCard>,        // soft counter outputs
    relaxing: set<nat>,            // counter outputs without weight whose successor is due
    leaves: seq<seq<Lit>>,         // the literals each counter counts
    pending: seq<Pending>,
    cost: nat)

  /** `WeightVector::operator[]`: the weight seen from a literal. */
  function WeightOf(poids: map<nat, int>, l: Lit): (w: int) {
    if l.v !in poids then 0 else if l.pos then poids[l.v] else -poids[l.v]
  }

  function SetWeight(poids: map<nat, int>, l: Lit, w: int): (r: map<nat, int>)
    ensures WeightOf(r, l) == w
    ensures forall k: Lit | k.v != l.v :: WeightOf(r, k) == WeightOf(poids, k)
  {
    poids[l.v := if l.pos then w else -w]
  }

  /** An assignment to evaluate under, or None for the worst case: everything falsified. */
  type View = Option<Assignment>

  predicate Falsified(view: View, l: Lit) {
    view.None? || !True(view.value, l)
  }

  /** A weight, paid if the literal is falsified. */
  function Pay(w: nat, view: View, l: Lit): (r: nat) {
    if Falsified(view, l) then w else 0
  }

  function CountIn(view: View, ls: seq<Lit>): (n: nat) {
    if view.None? then |ls| else Count(view.value, ls)
  }

  function Excess(n: nat, k: nat): (r: nat) {
    if n > k then n - k else 0
  }

  /** The literal that a weighted variable makes soft. */
  function SoftLit(f: Formula, v: nat): (l: Lit) {
    Lit(v, WeightOf(f.poids, Lit(v, true)) > 0)
  }

  predicate Live(f: Formula, v: nat) {
    v in f.a2c && (WeightOf(f.poids, Lit(v, true)) != 0 || v in f.relaxing)
  }

  ghost predicate WfCards(f: Formula) {
    forall v | v in f.a2c :: f.a2c[v].card < |f.leaves|
  }

  /** w0 for every counted literal beyond output k: the successors not created yet. */
  function Tail(f: Formula, view: View, v: nat): (r: nat)
    requires v in f.a2c && f.a2c[v].card < |f.leaves|
  {
    var c := f.a2c[v];
    c.w0 * Excess(CountIn(view, f.leaves[c.card]), c.k + 1)
  }

  function SoftTerm(f: Formula, view: View, v: nat): (r: nat) {
    var l := SoftLit(f, v);
    Pay(WeightOf(f.poids, l), view, l)
  }

  function VarTerm(f: Formula, view: View, v: nat): (r: nat)
    requires WfCards(f)
  {
    SoftTerm(f, view, v) + if Live(f, v) then Tail(f, view, v) else 0
  }

  function VarSum(f: Formula, view: View, n: nat): (r: nat)
    requires WfCards(f)
  {
    if n == 0 then 0 else VarSum(f, view, n - 1) + VarTerm(f, view, n)
  }

  function PendingSum(pending: seq<Pending>, view: View): (r: nat) {
    if pending == [] then 0
    else pending[0].w * Excess(CountIn(view, pending[0].lits), 1) + PendingSum(pending[1..], view)
  }

  /** The objective over the variables 1..n. */
  function Value(f: Formula, view: View, n: nat): (r: nat)
    requires WfCards(f)
  {
    f.cost + VarSum(f, view, n) + PendingSum(f.pending, view)
  }

  // ----- changing one variable -----

  lemma TermFrame(f: Formula, f': Formula, view: View, v: nat)
    requires WfCards(f) && WfCards(f') && f'.leaves == f.leaves
    requires WeightOf(f'.poids, Lit(v, true)) == WeightOf(f.poids, Lit(v, true))
    requires v in f'.a2c <==> v in f.a2c
    requires v in f.a2c ==> f'.a2c[v] == f.a2c[v]
    requires v in f'.relaxing <==> v in f.relaxing
    ensures VarTerm(f', view, v) == VarTerm(f, view, v)
  {
    var l := SoftLit(f, v);
    assert SoftLit(f', v) == l;
    assert WeightOf(f'.poids, l) == WeightOf(f.poids, l);
  }

  /** Only variable `x` changed. */
  ghost predicate OnlyAt(f: Formula, f': Formula, x: nat) {
    && WfCards(f) && WfCards(f') && f'.leaves == f.leaves
    && (forall v | v != x :: WeightOf(f'.poids, Lit(v, true)) == WeightOf(f.poids, Lit(v, true)))
    && (forall v | v != x :: v in f'.a2c <==> v in f.a2c)
    && (forall v | v != x && v in f.a2c :: f'.a2c[v] == f.a2c[v])
    && (forall v | v != x :: v in f'.relaxing <==> v in f.relaxing)
  }

  lemma SumAt(f: Formula, f': Formula, view: View, n: nat, x: nat)
    requires OnlyAt(f, f', x) && 1 <= x <= n
    ensures VarSum(f', view, n) + VarTerm(f, view, x) == VarSum(f, view, n) + VarTerm(f', view, x)
  {
    forall v | 1 <= v <= n && v != x ensures VarTerm(f', view, v) == VarTerm(f, view, v) {
      TermFrame(f, f', view, v);
    }
    SumPoint(f, f', view, n, x);
  }

  lemma {:induction false} SumSame(f: Formula, f': Formula, view: View, n: nat)
    requires WfCards(f) && WfCards(f')
    requires forall v | 1 <= v <= n :: VarTerm(f', view, v) == VarTerm(f, view, v)
    ensures VarSum(f', view, n) == VarSum(f, view, n)
  {
    if n > 0 {
      SumSame(f, f', view, n - 1);
    }
  }

  lemma {:induction false} SumPoint(f: Formula, f': Formula, view: View, n: nat, x: nat)
    requires WfCards(f) && WfCards(f') && 1 <= x <= n
    requires forall v | 1 <= v <= n && v != x :: VarTerm(f', view, v) == VarTerm(f, view, v)
    ensures VarSum(f', view, n) + VarTerm(f, view, x) == VarSum(f, view, n) + VarTerm(f', view, x)
  {
    if n == x {
      SumSame(f, f', view, n - 1);
    } else {
      SumPoint(f, f', view, n - 1, x);
    }
  }

  lemma {:induction false} SumGrow(f: Formula, view: View, n: nat, n': nat)
    requires WfCards(f) && n <= n'
    requires forall v | n < v <= n' :: v !in f.a2c && WeightOf(f.poids, Lit(v, true)) == 0
    ensures VarSum(f, view, n') == VarSum(f, view, n)
    decreases n'
  {
    if n < n' {
      SumGrow(f, view, n, n' - 1);
    }
  }

  lemma {:induction false} PendingConcat(a: seq<Pending>, b: seq<Pending>, view: View)
    ensures PendingSum(a + b, view) == PendingSum(a, view) + PendingSum(b, view)
  {
    if a == [] {
      assert a + b == b;
    } else {
      assert (a + b)[1..] == a[1..] + b;
      PendingConcat(a[1..], b, view);
    }
  }

  /** One more unit of a counter: the next output, and what lies beyond it. */
  lemma ExcessStep(w: nat, n: nat, k: nat)
    ensures w * Excess(n, k) == w * (if n > k then 1 else 0) + w * Excess(n, k + 1)
  {
    if n > k {
      assert Excess(n, k) == 1 + Excess(n, k + 1);
    }
  }

  /** The weight of one soft literal changes from w + d to w, for a literal that stays or stops being soft. */
  lemma LowerWeight(f: Formula, l: Lit, d: nat, view: View, n: nat)
    requires WfCards(f) && 1 <= l.v <= n && l.v !in f.relaxing
    requires 0 < d <= WeightOf(f.poids, l)
    ensures var f' := f.(poids := SetWeight(f.poids, l, WeightOf(f.poids, l) - d));
            VarSum(f, view, n) == VarSum(f', view, n) + Pay(d, view, l)
              + if WeightOf(f.poids, l) == d && l.v in f.a2c then Tail(f, view, l.v) else 0
  {
    var w := WeightOf(f.poids, l);
    var f' := f.(poids := SetWeight(f.poids, l, w - d));
    SumAt(f, f', view, n, l.v);
    LowerTerm(f, l, d, view);
  }

  lemma LowerTerm(f: Formula, l: Lit, d: nat, view: View)
    requires WfCards(f) && l.v !in f.relaxing
    requires 0 < d <= WeightOf(f.poids, l)
    ensures var f' := f.(poids := SetWeight(f.poids, l, WeightOf(f.poids, l) - d));
            VarTerm(f, view, l.v) == VarTerm(f', view, l.v) + Pay(d, view, l)
              + if WeightOf(f.poids, l) == d && l.v in f.a2c then Tail(f, view, l.v) else 0
  {
    var w := WeightOf(f.poids, l);
    var f' := f.(poids := SetWeight(f.poids, l, w - d));
    assert SoftLit(f, l.v) == l && SoftTerm(f, view, l.v) == Pay(w, view, l);
    assert SoftTerm(f', view, l.v) == Pay(w - d, view, l) by {
      if w > d {
        assert SoftLit(f', l.v) == l;
      }
    }
  }

  /** A counter output that lost its weight waits for its successor. */
  lemma StartRelaxing(f: Formula, v: nat, view: View, n: nat)
    requires WfCards(f) && 1 <= v <= n && v in f.a2c && v !in f.relaxing
    requires WeightOf(f.poids, Lit(v, true)) == 0
    ensures VarSum(f.(relaxing := f.relaxing + {v}), view, n) == VarSum(f, view, n) + Tail(f, view, v)
  {
    SumAt(f, f.(relaxing := f.relaxing + {v}), view, n, v);
  }

  /** A fresh soft literal. */
  lemma NewSoft(f: Formula, l: Lit, w: nat, view: View, n: nat)
    requires WfCards(f) && 1 <= l.v <= n && l.v !in f.a2c && w > 0
    requires WeightOf(f.poids, l) == 0
    ensures VarSum(f.(poids := SetWeight(f.poids, l, w)), view, n) == VarSum(f, view, n) + Pay(w, view, l)
  {
    var f' := f.(poids := SetWeight(f.poids, l, w));
    SumAt(f, f', view, n, l.v);
    assert SoftLit(f', l.v) == l;
    assert SoftTerm(f, view, l.v) == 0;
  }

  /** A counter output becomes soft: from output k on, the counter pays for every excess literal. */
  lemma NewCounterOutput(f: Formula, v: nat, c: LitCard, view: View, n: nat)
    requires WfCards(f) && 1 <= v <= n && v !in f.a2c && v !in f.relaxing
    requires WeightOf(f.poids, Lit(v, true)) == 0
    requires c.card < |f.leaves| && c.w0 > 0
    requires Falsified(view, Lit(v, false)) <==> CountIn(view, f.leaves[c.card]) > c.k
    ensures var f' := f.(poids := SetWeight(f.poids, Lit(v, false), c.w0), a2c := f.a2c[v := c]);
            WfCards(f') && VarSum(f', view, n) == VarSum(f, view, n) + c.w0 * Excess(CountIn(view, f.leaves[c.card]), c.k)
  {
    var f' := f.(poids := SetWeight(f.poids, Lit(v, false), c.w0), a2c := f.a2c[v := c]);
    SumAt(f, f', view, n, v);
    assert SoftLit(f', v) == Lit(v, false);
    assert SoftTerm(f, view, v) == 0;
    ExcessStep(c.w0, CountIn(view, f.leaves[c.card]), c.k);
  }

  /** Lower bound and pending cores do not enter the sum over variables. */
  lemma SumIgnores(f: Formula, f': Formula, view: View, n: nat)
    requires WfCards(f) && f'.poids == f.poids && f'.a2c == f.a2c && f'.relaxing == f.relaxing && f'.leaves == f.leaves
    ensures WfCards(f') && VarSum(f', view, n) == VarSum(f, view, n)
  {
    forall v ensures VarTerm(f', view, v) == VarTerm(f, view, v) {
      TermFrame(f, f', view, v);
    }
    SumSame(f, f', view, n);
  }

  lemma TailIgnores(f: Formula, f': Formula, view: View, v: nat)
    requires v in f.a2c && f.a2c[v].card < |f.leaves| && f'.a2c == f.a2c && f'.leaves == f.leaves
    ensures Tail(f', view, v) == Tail(f, view, v)
  {
  }

  // ----- what the weights miss -----

  /** What a state owes beyond its weights: successors not created yet and pending cores. */
  ghost function Owed(f: Formula, view: View, n: nat): (r: nat)
    requires WfCards(f)
  {
    Tails(f, view, n) + PendingSum(f.pending, view)
  }

  ghost function Tails(f: Formula, view: View, n: nat): (r: nat)
    requires WfCards(f)
  {
    if n == 0 then 0 else Tails(f, view, n - 1) + if Live(f, n) then Tail(f, view, n) else 0
  }

  /** A live counter has no output after its current one. */
  predicate Spent(f: Formula, v: nat) {
    Live(f, v) ==> f.a2c[v].card < |f.leaves| && |f.leaves[f.a2c[v].card]| <= f.a2c[v].k + 1
  }

  /** No live counter has another output to come, and no pending core needs a counter. */
  predicate Exhausted(f: Formula) {
    (forall v | v in f.a2c :: Spent(f, v)) && forall i | 0 <= i < |f.pending| :: |f.pending[i].lits| <= 1
  }

  lemma {:induction false} SpentOwesNothing(f: Formula, view: View, n: nat)
    requires WfCards(f) && forall v | v in f.a2c :: Spent(f, v)
    ensures Tails(f, view, n) == 0
  {
    if n > 0 {
      SpentOwesNothing(f, view, n - 1);
      if Live(f, n) {
        assert Spent(f, n);
        assert Excess(CountIn(view, f.leaves[f.a2c[n].card]), f.a2c[n].k + 1) == 0;
      }
    }
  }

  lemma {:induction false} ShortOwesNothing(pending: seq<Pending>, view: View)
    requires forall i | 0 <= i < |pending| :: |pending[i].lits| <= 1
    ensures PendingSum(pending, view) == 0
  {
    if pending != [] {
      ShortOwesNothing(pending[1..], view);
    }
  }

  /** An assignment that makes all literals of a consistent list true. */
  function Satisfier(ls: seq<Lit>): (s: Assignment) {
    set l | l in ls && l.pos :: l.v
  }

  lemma {:induction false} CountAll(s: Assignment, ls: seq<Lit>)
    requires forall l | l in ls :: True(s, l)
    ensures Count(s, ls) == |ls|
  {
    if ls != [] {
      CountAll(s, ls[1..]);
    }
  }

  lemma SatisfierCounts(ls: seq<Lit>)
    requires Consistent(ls)
    ensures Count(Satisfier(ls), ls) == |ls|
  {
    forall l | l in ls ensures True(Satisfier(ls), l) {
      if !l.pos {
        assert forall k: Lit | k.pos && k.v == l.v :: k == Neg(l);
      }
    }
    CountAll(Satisfier(ls), ls);
  }

  lemma {:induction false} TailBelowTails(f: Formula, view: View, n: nat, v: nat)
    requires WfCards(f) && 1 <= v <= n && Live(f, v)
    ensures Tail(f, view, v) <= Tails(f, view, n)
  {
    if v < n {
      TailBelowTails(f, view, n - 1, v);
    }
  }

  lemma {:induction false} CoreBelowPending(pending: seq<Pending>, view: View, i: nat)
    requires i < |pending|
    ensures pending[i].w * Excess(CountIn(view, pending[i].lits), 1) <= PendingSum(pending, view)
  {
    if i > 0 {
      CoreBelowPending(pending[1..], view, i - 1);
    }
  }

  lemma ProductPositive(a: nat, b: nat)
    requires a > 0 && b > 0
    ensures a * b > 0
  {
  }

  /** Positive weights and consistent leaves, all within the first n variables. */
  ghost predicate Regular(f: Formula, n: nat) {
    && WfCards(f)
    && (forall v | v in f.a2c && Live(f, v) :: 1 <= v <= n && f.a2c[v].w0 > 0 && Consistent(f.leaves[f.a2c[v].card]))
    && (forall i | 0 <= i < |f.pending| :: f.pending[i].w > 0 && Consistent(f.pending[i].lits))
  }

  /** The weights miss nothing, whatever the assignment, exactly when the counters are exhausted. */
  lemma OwedExact(f: Formula, n: nat)
    requires Regular(f, n)
    ensures (forall s: Assignment :: Owed(f, Some(s), n) == 0) <==> Exhausted(f)
  {
    if Exhausted(f) {
      forall s: Assignment ensures Owed(f, Some(s), n) == 0 {
        SpentOwesNothing(f, Some(s), n);
        ShortOwesNothing(f.pending, Some(s));
      }
    } else if v :| v in f.a2c && !Spent(f, v) {
      UnspentOwes(f, n, v);
    } else {
      var i :| 0 <= i < |f.pending| && |f.pending[i].lits| > 1;
      LongOwes(f, n, i);
    }
  }

  lemma UnspentOwes(f: Formula, n: nat, v: nat)
    requires Regular(f, n) && v in f.a2c && !Spent(f, v)
    ensures Owed(f, Some(Satisfier(f.leaves[f.a2c[v].card])), n) > 0
  {
    var c := f.a2c[v];
    var s := Satisfier(f.leaves[c.card]);
    SatisfierCounts(f.leaves[c.card]);
    TailBelowTails(f, Some(s), n, v);
    ProductPositive(c.w0, Excess(CountIn(Some(s), f.leaves[c.card]), c.k + 1));
  }

  lemma LongOwes(f: Formula, n: nat, i: nat)
    requires Regular(f, n) && i < |f.pending| && |f.pending[i].lits| > 1
    ensures Owed(f, Some(Satisfier(f.pending[i].lits)), n) > 0
  {
    var p := f.pending[i];
    var s := Satisfier(p.lits);
    SatisfierCounts(p.lits);
    CoreBelowPending(f.pending, Some(s), i);
    ProductPositive(p.w, Excess(CountIn(Some(s), p.lits), 1));
  }

  /** The counter of this output has another one to come. */
  predicate HasNext(f: Formula, v: nat) {
    v in f.a2c && f.a2c[v].card < |f.leaves| && |f.leaves[f.a2c[v].card]| > f.a2c[v].k + 1
  }

  lemma NoNext(f: Formula, v: nat)
    requires Exhausted(f) && (v in f.a2c ==> Live(f, v))
    ensures !HasNext(f, v)
  {
    assert v in f.a2c ==> Spent(f, v);
  }

  /** No counter was built or moved on. */
  ghost predicate Quiet(f: Formula, f': Formula) {
    f'.leaves == f.leaves && forall v | v in f'.a2c :: v in f.a2c && f'.a2c[v] == f.a2c[v]
  }

  lemma QuietSame(f: Formula, f': Formula)
    requires f'.leaves == f.leaves && f'.a2c == f.a2c
    ensures Quiet(f, f')
  {
  }

  /** While no counter output gains weight, exhausted counters stay so. */
  lemma CalmStep(f: Formula, f': Formula)
    requires Quiet(f, f') && f'.relaxing <= f.relaxing && forall p | p in f'.pending :: p in f.pending
    requires forall v | v in f'.a2c && WeightOf(f'.poids, Lit(v, true)) != 0 :: WeightOf(f.poids, Lit(v, true)) != 0
    ensures Exhausted(f) ==> Exhausted(f')
  {
    if Exhausted(f) {
      forall v | v in f'.a2c ensures Spent(f', v) {
        assert Spent(f, v);
      }
      forall i | 0 <= i < |f'.pending| ensures |f'.pending[i].lits| <= 1 {
        assert f'.pending[i] in f.pending;
        var j :| 0 <= j < |f.pending| && f.pending[j] == f'.pending[i];
      }
    }
  }

  /** Relaxing an output of an exhausted counter creates no successor. */
  lemma RelaxCalm(f: Formula, f1: Formula, f2: Formula, f': Formula, v: nat, none: bool)
    requires f1.a2c == f.a2c && f1.leaves == f.leaves && (v in f.a2c ==> Live(f, v))
    requires if none then Quiet(f1, f2) else HasNext(f1, v)
    requires f'.a2c == f2.a2c && f'.leaves == f2.leaves
    requires none ==> f'.relaxing <= f.relaxing && forall p | p in f'.pending :: p in f.pending
    requires none ==> forall u | u in f'.a2c && WeightOf(f'.poids, Lit(u, true)) != 0 :: WeightOf(f.poids, Lit(u, true)) != 0
    ensures Exhausted(f) ==> Exhausted(f')
  {
    if Exhausted(f) {
      NoNext(f, v);
      CalmStep(f, f');
    }
  }

  /** With exhausted counters, whoever makes more soft literals true pays no more. */
  lemma {:induction false} SumMonotone(f: Formula, m: Assignment, e: Assignment, n: nat)
    requires WfCards(f) && forall v | v in f.a2c :: Spent(f, v)
    requires forall l: Lit | 1 <= l.v <= n && WeightOf(f.poids, l) > 0 && True(m, l) :: True(e, l)
    ensures VarSum(f, Some(e), n) <= VarSum(f, Some(m), n)
  {
    if n > 0 {
      SumMonotone(f, m, e, n - 1);
      var l := SoftLit(f, n);
      if WeightOf(f.poids, Lit(n, true)) != 0 {
        assert WeightOf(f.poids, l) > 0;
      }
      SpentTerm(f, Some(m), n);
      SpentTerm(f, Some(e), n);
    }
  }

  lemma SpentTerm(f: Formula, view: View, v: nat)
    requires WfCards(f) && forall u | u in f.a2c :: Spent(f, u)
    ensures VarTerm(f, view, v) == SoftTerm(f, view, v)
  {
    if Live(f, v) {
      assert Spent(f, v);
      assert Excess(CountIn(view, f.leaves[f.a2c[v].card]), f.a2c[v].k + 1) == 0;
    }
  }
}
