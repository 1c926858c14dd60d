/**
 What the DRUP checker has on record: the live clauses as a multiset of sets of
 literals, and how additions and deletions change it.
 */
module Records {
  import opened Cnf
  import opened Watching

  type Stock = multiset<set<Lit>>

  ghost function Entry(st: Stored): (r: Stock) {
    if st.live then multiset{ToSet(st.lits)} else multiset{}
  }

  /** The live clauses, each as the set of its literals. */
  ghost function StockOf(cs: seq<Stored>): (r: Stock) {
    if cs == [] then multiset{} else StockOf(cs[..|cs| - 1]) + Entry(cs[|cs| - 1])
  }

  lemma StockPush(cs: seq<Stored>, st: Stored)
    ensures StockOf(cs + [st]) == StockOf(cs) + Entry(st)
  {
    assert (cs + [st])[..|cs|] == cs;
  }

  lemma SumSwap(f': Stock, e: Stock, f: Stock, t: Stock, l: Stock)
    requires f' + e == f + t
    ensures f' + l + e == f + l + t
  {
    assert f' + l + e == f' + e + l;
    assert f + l + t == f + t + l;
  }

  /** Changing one stored clause. */
  lemma {:induction false} StockUpdate(cs: seq<Stored>, i: nat, st: Stored)
    requires i < |cs|
    ensures StockOf(cs[i := st]) + Entry(cs[i]) == StockOf(cs) + Entry(st)
  {
    hide Entry;
    var n := |cs| - 1;
    var cs' := cs[i := st];
    if i < n {
      StockUpdate(cs[..n], i, st);
      assert cs'[..n] == cs[..n][i := st] && cs'[n] == cs[n] && cs[..n][i] == cs[i];
      SumSwap(StockOf(cs'[..n]), Entry(cs[i]), StockOf(cs[..n]), Entry(st), Entry(cs[n]));
    } else {
      assert cs'[..n] == cs[..n];
      var f := StockOf(cs[..n]);
      assert f + Entry(st) + Entry(cs[n]) == f + Entry(cs[n]) + Entry(st);
    }
  }

  lemma {:induction false} StockSame(cs: seq<Stored>, cs': seq<Stored>)
    requires |cs'| == |cs| && forall i | 0 <= i < |cs| :: cs'[i].live == cs[i].live && multiset(cs'[i].lits) == multiset(cs[i].lits)
    ensures StockOf(cs') == StockOf(cs)
  {
    if cs != [] {
      var n := |cs| - 1;
      StockSame(cs[..n], cs'[..n]);
      SameLiterals(cs[n].lits, cs'[n].lits);
    }
  }

  lemma SameLiterals(a: Clause, b: Clause)
    requires multiset(a) == multiset(b)
    ensures ToSet(a) == ToSet(b)
  {
    forall l ensures l in a <==> l in b {
      assert l in multiset(a) <==> l in multiset(b);
    }
  }

  lemma {:induction false} StockLive(cs: seq<Stored>, s: set<Lit>)
    ensures s in StockOf(cs) <==> exists i: nat | LiveAt(cs, i) :: ToSet(cs[i].lits) == s
  {
    if cs != [] {
      var n := |cs| - 1;
      StockLive(cs[..n], s);
      if i: nat :| LiveAt(cs, i) && ToSet(cs[i].lits) == s {
        if i < n {
          assert LiveAt(cs[..n], i) && cs[..n][i] == cs[i];
        }
      }
      if s in StockOf(cs[..n]) {
        var i: nat :| LiveAt(cs[..n], i) && ToSet(cs[..n][i].lits) == s;
        assert LiveAt(cs, i);
      } else if s in StockOf(cs) {
        assert s in Entry(cs[n]) && LiveAt(cs, n);
      }
    }
  }

  /** Some literal of the clause is true. */
  predicate Satisfied(s: set<Lit>, vals: set<Lit>) {
    exists l | l in s :: l in vals
  }

  /** Exactly the clauses with a true literal left the stock. */
  ghost predicate Swept(before: Stock, after: Stock, vals: set<Lit>) {
    forall s: set<Lit> :: after[s] == if Satisfied(s, vals) then 0 else before[s]
  }

  lemma {:induction false} SweptStock(cs: seq<Stored>, cs': seq<Stored>, vals: set<Lit>)
    requires |cs'| == |cs|
    requires forall i | 0 <= i < |cs| :: cs'[i] == cs[i].(live := cs[i].live && !Satisfied(ToSet(cs[i].lits), vals))
    ensures Swept(StockOf(cs), StockOf(cs'), vals)
  {
    if cs != [] {
      var n := |cs| - 1;
      SweptStock(cs[..n], cs'[..n], vals);
      hide Satisfied;
      SweptEntry(StockOf(cs[..n]), StockOf(cs'[..n]), cs[n], cs'[n], vals);
    }
  }

  lemma SweptEntry(before: Stock, after: Stock, st: Stored, st': Stored, vals: set<Lit>)
    requires Swept(before, after, vals) && st' == st.(live := st.live && !Satisfied(ToSet(st.lits), vals))
    ensures Swept(before + Entry(st), after + Entry(st'), vals)
  {
    var e := ToSet(st.lits);
    assert Entry(st') == if Satisfied(e, vals) then multiset{} else Entry(st);
    assert forall s | s != e :: Entry(st)[s] == 0;
    hide Satisfied, Entry;
    forall s: set<Lit> ensures (after + Entry(st'))[s] == if Satisfied(s, vals) then 0 else (before + Entry(st))[s] {
      assert after[s] == if Satisfied(s, vals) then 0 else before[s];
      assert (after + Entry(st'))[s] == after[s] + Entry(st')[s];
      assert (before + Entry(st))[s] == before[s] + Entry(st)[s];
    }
  }

  // ----- additions -----

  /** Two literals are not false. */
  predicate TwoFree(s: set<Lit>, vals: set<Lit>) {
    exists a, b | a in s && b in s :: a != b && Neg(a) !in vals && Neg(b) !in vals
  }

  /**
   The clause was taken in: with two literals that are not false it is in the stock; with one,
   that literal is true or the checker is inconsistent; with none, it is inconsistent.
   */
  ghost predicate TakenIn(s: set<Lit>, vals: set<Lit>, stock: Stock, inconsistent': bool, vals': set<Lit>, stock': Stock) {
    && vals <= vals'
    && if TwoFree(s, vals) then !inconsistent' && vals' == vals && stock' == stock + multiset{s}
       else
         && stock' == stock
         && (forall l | l in s && Neg(l) !in vals :: inconsistent' || l in vals')
         && ((forall l | l in s :: Neg(l) in vals) ==> inconsistent')
  }

  // ----- the clauses added and not deleted -----

  /** The clause says nothing any more: a true literal, or two that clash. */
  predicate Idle(s: set<Lit>, vals: set<Lit>) {
    exists l | l in s :: l in vals || Neg(l) in s
  }

  /** Whatever was added and not deleted is in the stock as often, unless it is idle. */
  ghost predicate Covers(active: Stock, stock: Stock, vals: set<Lit>) {
    forall s | s in active && !Idle(s, vals) :: active[s] <= stock[s]
  }

  lemma CoversIdle(active: Stock, stock: Stock, vals: set<Lit>, s: set<Lit>)
    requires Covers(active, stock, vals) && Idle(s, vals)
    ensures Covers(active + multiset{s}, stock, vals)
  {
  }

  lemma CoversTaken(active: Stock, stock: Stock, vals: set<Lit>, s: set<Lit>, inconsistent': bool, vals': set<Lit>, stock': Stock)
    requires Covers(active, stock, vals) && TakenIn(s, vals, stock, inconsistent', vals', stock')
    ensures inconsistent' || Covers(active + multiset{s}, stock', vals')
  {
    hide Idle, TwoFree;
    if !inconsistent' {
      IdleGrows(vals, vals');
      if !TwoFree(s, vals) {
        var l :| l in s && Neg(l) !in vals;
        IdleBy(s, vals', l);
      }
    }
  }

  lemma IdleGrows(vals: set<Lit>, vals': set<Lit>)
    requires vals <= vals'
    ensures forall s | Idle(s, vals) :: Idle(s, vals')
  {
  }

  lemma IdleBy(s: set<Lit>, vals: set<Lit>, l: Lit)
    requires l in s && l in vals
    ensures Idle(s, vals)
  {
  }

  lemma CoversRemoved(active: Stock, stock: Stock, stock1: Stock, stock': Stock, vals: set<Lit>, s: set<Lit>)
    requires Covers(active, stock, vals) && stock1 + multiset{s} == stock && (stock' == stock1 || Swept(stock1, stock', vals))
    ensures Covers(active - multiset{s}, stock', vals)
  {
    forall t | t in active - multiset{s} && !Idle(t, vals) ensures (active - multiset{s})[t] <= stock'[t] {
      assert !Satisfied(t, vals);
      assert active[t] <= stock[t];
      assert stock[t] == stock1[t] + multiset{s}[t];
    }
  }

  lemma CoversLess(active: Stock, stock: Stock, vals: set<Lit>, s: set<Lit>)
    requires Covers(active, stock, vals)
    ensures Covers(active - multiset{s}, stock, vals)
  {
  }

  // ----- naive propagation over them -----

  /** Nothing is falsified, and every unit is assigned. */
  ghost predicate Closed(f: set<Clause>, s: set<Lit>) {
    forall c | c in f :: !Falsified(c, s) && forall l | UnitUnder(c, s, l) :: l in s
  }

  /** Unit propagation from s0 can stop without a conflict. */
  ghost predicate Stuck(f: set<Clause>, s0: set<Lit>) {
    exists s: set<Lit> :: Rest(f, s0, s)
  }

  ghost predicate Rest(f: set<Clause>, s0: set<Lit>, s: set<Lit>) {
    s0 <= s && ConsistentSet(s) && Closed(f, s)
  }

  lemma ClosedStep(f: set<Clause>, r: set<Lit>, s: set<Lit>)
    requires r <= s && Closed(f, s)
    ensures Step(f, r) <= s
  {
    forall c, l | c in f && l in c && UnitUnder(c, r, l) ensures l in s {
      ClosedAt(f, s, c);
      assert l !in s ==> UnitUnder(c, s, l);
    }
  }

  lemma {:induction false} ClosedRounds(f: set<Clause>, s0: set<Lit>, s: set<Lit>, n: nat)
    requires s0 <= s && Closed(f, s)
    ensures Rounds(f, s0, n) <= s
  {
    hide Closed, Step;
    if n > 0 {
      ClosedRounds(f, s0, s, n - 1);
      ClosedStep(f, Rounds(f, s0, n - 1), s);
    }
  }

  lemma ClosedQuiet(f: set<Clause>, s0: set<Lit>, s: set<Lit>)
    requires s0 <= s && Closed(f, s)
    ensures !NaiveConflict(f, s0)
  {
    hide Rounds, Closed;
    forall n: nat, c | c in f ensures !Falsified(c, Rounds(f, s0, n)) {
      ClosedRounds(f, s0, s, n);
      ClosedAt(f, s, c);
      var l :| l in c && Neg(l) !in s;
    }
  }

  lemma ClosedAt(f: set<Clause>, s: set<Lit>, c: Clause)
    requires Closed(f, s) && c in f
    ensures !Falsified(c, s) && forall l | UnitUnder(c, s, l) :: l in s
  {
  }

  /** The clauses of f are on record. */
  ghost predicate Among(f: set<Clause>, active: Stock) {
    forall d | d in f :: ToSet(d) in active
  }

  lemma ClosedClause(live: set<Clause>, s: set<Lit>, d: Clause, e: Clause)
    requires Closed(live, s) && e in live && ToSet(e) == ToSet(d)
    ensures !Falsified(d, s) && forall l | UnitUnder(d, s, l) :: l in s
  {
    forall l ensures l in d <==> l in e {
      assert l in ToSet(d) <==> l in ToSet(e);
    }
    assert !Falsified(e, s);
    forall l | UnitUnder(d, s, l) ensures l in s {
      assert UnitUnder(e, s, l);
    }
  }

  lemma IdleClosed(d: Clause, s: set<Lit>)
    requires ConsistentSet(s) && Idle(ToSet(d), s)
    ensures !Falsified(d, s) && forall l | UnitUnder(d, s, l) :: l in s
  {
    var x :| x in ToSet(d) && (x in s || Neg(x) in ToSet(d));
    assert Neg(Neg(x)) == x && (x in s ==> Neg(x) !in s);
    if x !in s {
      assert Neg(x) in d && x in d;
    }
  }

  /** What stops propagation over the live clauses stops it over everything on record. */
  lemma RecordRest(cs: seq<Stored>, active: Stock, vals: set<Lit>, f: set<Clause>, s0: set<Lit>)
    requires Covers(active, StockOf(cs), vals) && Among(f, active) && Stuck(LiveClauses(cs), vals + s0)
    ensures !NaiveConflict(f, s0)
  {
    hide Closed, Idle, ConsistentSet;
    var s :| Rest(LiveClauses(cs), vals + s0, s);
    forall d | d in f ensures !Falsified(d, s) && forall l | UnitUnder(d, s, l) :: l in s {
      var t := ToSet(d);
      if Idle(t, vals) {
        IdleGrows(vals, s);
        IdleClosed(d, s);
      } else {
        assert t in StockOf(cs);
        StockLive(cs, t);
        var i: nat :| LiveAt(cs, i) && ToSet(cs[i].lits) == t;
        ClosedClause(LiveClauses(cs), s, d, cs[i].lits);
      }
    }
    assert Closed(f, s) by {
      ClosedIntro(f, s);
    }
    ClosedQuiet(f, s0, s);
  }

  lemma ClosedIntro(f: set<Clause>, s: set<Lit>)
    requires forall d | d in f :: !Falsified(d, s) && forall l | UnitUnder(d, s, l) :: l in s
    ensures Closed(f, s)
  {
  }
}
