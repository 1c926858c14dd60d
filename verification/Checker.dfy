/**
 The online DRUP checker: every derived clause is checked by unit propagation
 over the clauses added so far.
 */
module Checker {
  import opened Cnf
  import opened Watching
  import opened HashTable
  import opened Records

  // ----- what follows from the original clauses -----

  /** In every model of the original clauses in which `a` holds, s holds. */
  ghost predicate Implied(orig: set<Clause>, a: set<Lit>, s: set<Lit>) {
    forall m: Assignment | Sat(m, orig) && AllTrue(m, a) :: AllTrue(m, s)
  }

  /** All stored clauses follow, also the garbage ones. */
  ghost predicate StoreSound(orig: set<Clause>, cs: seq<Stored>) {
    forall i | 0 <= i < |cs| :: Entails(orig, cs[i].lits)
  }

  lemma AssignFollows(orig: set<Clause>, a: set<Lit>, s: set<Lit>, c: Clause, l: Lit)
    requires Implied(orig, a, s) && Entails(orig, c) && UnitUnder(c, s, l)
    ensures Implied(orig, a, s + {l})
  {
    forall m: Assignment | Sat(m, orig) && AllTrue(m, a) ensures AllTrue(m, s + {l}) {
      var x :| x in c && True(m, x);
      assert x != l ==> Neg(x) in s;
    }
  }

  lemma ConflictFollows(orig: set<Clause>, a: set<Lit>, s: set<Lit>, c: Clause)
    requires Implied(orig, a, s) && Entails(orig, c) && Falsified(c, s)
    ensures Unsat(orig, a)
  {
    forall m: Assignment ensures !(Sat(m, orig) && AllTrue(m, a)) {
      if Sat(m, orig) {
        var x :| x in c && True(m, x);
        assert Neg(x) in s && !True(m, Neg(x));
      }
    }
  }

  lemma ReorderedSound(orig: set<Clause>, cs: seq<Stored>, cs': seq<Stored>, c: nat)
    requires StoreSound(orig, cs) && Reordered(cs, cs', c)
    ensures StoreSound(orig, cs')
  {
    SameMembers(cs[c].lits, cs'[c].lits);
    forall i | 0 <= i < |cs'| ensures Entails(orig, cs'[i].lits) {
      assert Entails(orig, cs[i].lits);
      if i != c {
        assert cs'[i] == cs[i];
      }
    }
  }

  ghost function AllLits(cs: seq<Stored>): (r: set<Lit>) {
    set i, l | 0 <= i < |cs| && l in cs[i].lits :: l
  }

  /** The same clauses, but for the order of their literals. */
  ghost predicate SameStore(cs: seq<Stored>, cs': seq<Stored>) {
    && |cs'| == |cs|
    && forall i | 0 <= i < |cs| :: cs'[i].hash == cs[i].hash && cs'[i].live == cs[i].live && multiset(cs'[i].lits) == multiset(cs[i].lits)
  }

  lemma ReorderedIsSame(cs: seq<Stored>, cs': seq<Stored>, c: nat)
    requires Reordered(cs, cs', c)
    ensures SameStore(cs, cs')
  {
    assert forall i | 0 <= i < |cs| && i != c :: cs'[i] == cs[i];
  }

  lemma SameStoreLits(cs: seq<Stored>, cs': seq<Stored>)
    requires SameStore(cs, cs')
    ensures AllLits(cs') == AllLits(cs)
  {
    forall i, l | 0 <= i < |cs| ensures l in cs'[i].lits <==> l in cs[i].lits {
      SameMembers(cs[i].lits, cs'[i].lits);
    }
  }

  lemma SameStoreTransitive(a: seq<Stored>, b: seq<Stored>, c: seq<Stored>)
    requires SameStore(a, b) && SameStore(b, c)
    ensures SameStore(a, c)
  {
  }

  lemma SameStoreSelf(cs: seq<Stored>)
    ensures SameStore(cs, cs)
  {
  }

  /** The table does not depend on the order of the literals. */
  lemma SameStoreTable(nonces: seq<nat>, cs: seq<Stored>, cs': seq<Stored>, table: Table)
    requires SameStore(cs, cs') && |nonces| > 0 && AllKeyed(nonces, cs) && Filed(cs, table, LiveIds(cs))
    ensures AllKeyed(nonces, cs') && LiveIds(cs') == LiveIds(cs) && Filed(cs', table, LiveIds(cs'))
  {
    hide Hash;
    FiledSame(cs, cs', table, LiveIds(cs));
    hide Filed;
    forall i | 0 <= i < |cs'| ensures Keyed(nonces, cs'[i]) {
      assert Keyed(nonces, cs[i]);
      SameMembers(cs[i].lits, cs'[i].lits);
    }
    assert LiveIds(cs') == LiveIds(cs);
  }

  lemma LitAt(cs: seq<Stored>, i: nat, l: Lit)
    requires i < |cs| && l in cs[i].lits
    ensures l in AllLits(cs)
  {
  }

  /** The trail cannot outgrow the literals there are. */
  lemma TrailBound(trail: seq<Lit>, u: set<Lit>)
    requires Distinct(trail) && ToSet(trail) <= u
    ensures |trail| <= |u|
  {
    DistinctSize(trail);
    assert u == ToSet(trail) + (u - ToSet(trail));
  }

  lemma EntryFacts(cs: seq<Stored>, watchers: Watchers, l: Lit, w: Watch)
    requires WatchesOk(cs, watchers) && w in Ws(watchers, l)
    ensures WatchOk(cs, l, w)
  {
    assert ListOk(cs, l, Ws(watchers, l));
  }

  lemma BinaryLits(c: Clause, a: Lit, b: Lit)
    requires |c| == 2 && a in c && b in c && a != b
    ensures forall l | l in c :: l == a || l == b
  {
  }

  /** The two watches in front, np second. */
  function WatchesFirst(c: Clause, np: Lit): (r: Clause)
    requires Watched(c, np)
    ensures |r| == |c| && multiset(r) == multiset(c) && r[1] == np && r[2..] == c[2..]
    ensures r[0] == if c[0] == np then c[1] else c[0]
  {
    assert c == [c[0], c[1]] + c[2..];
    [if c[0] == np then c[1] else c[0], np] + c[2..]
  }

  lemma WatchesFirstSame(c: Clause, np: Lit)
    requires Watched(c, np) && Distinct(c)
    ensures forall l :: Watched(WatchesFirst(c, np), l) <==> Watched(c, l)
  {
  }

  function Swapped(c: Clause, k: nat): (r: Clause)
    requires 2 <= k < |c|
    ensures |r| == |c| && multiset(r) == multiset(c) && r[0] == c[0] && r[1] == c[k]
  {
    assert c == c[..k] + [c[k]] + c[k + 1..];
    c[1 := c[k]][k := c[1]]
  }

  /** What an addition does: nothing if the checker is inconsistent or the clause trivial, else the clause is taken in. */
  ghost predicate Changed(inconsistent: bool, c: Clause, vals: set<Lit>, cs: seq<Stored>, inconsistent': bool, vals': set<Lit>, cs': seq<Stored>) {
    if inconsistent || Trivial(c, vals) then inconsistent' == inconsistent && vals' == vals && StockOf(cs') == StockOf(cs)
    else TakenIn(ToSet(c), vals, StockOf(cs), inconsistent', vals', StockOf(cs'))
  }

  lemma ChangedNothing(inconsistent: bool, c: Clause, vals: set<Lit>, cs: seq<Stored>)
    ensures inconsistent || Trivial(c, vals) ==> Changed(inconsistent, c, vals, cs, inconsistent, vals, cs)
  {
  }

  lemma ChangedTaken(c: Clause, vals: set<Lit>, cs: seq<Stored>, inconsistent': bool, vals': set<Lit>, cs': seq<Stored>)
    requires !Trivial(c, vals) && TakenIn(ToSet(c), vals, StockOf(cs), inconsistent', vals', StockOf(cs'))
    ensures Changed(false, c, vals, cs, inconsistent', vals', cs')
  {
  }

  lemma TakenNothing(c: Clause, vals: set<Lit>, stock: Stock)
    requires Falsified(c, vals)
    ensures TakenIn(ToSet(c), vals, stock, true, vals, stock)
  {
  }

  lemma TakenOne(c: Clause, vals: set<Lit>, stock: Stock, u: Lit, inconsistent': bool, vals': set<Lit>)
    requires UnitUnder(c, vals, u) && vals <= vals' && u in vals' && Neg(u) !in vals
    ensures TakenIn(ToSet(c), vals, stock, inconsistent', vals', stock)
  {
  }

  lemma TakenMany(c: Clause, vals: set<Lit>, stock: Stock)
    requires ManyFree(c, vals) && Distinct(c)
    ensures TakenIn(ToSet(c), vals, stock, false, vals, stock + multiset{ToSet(c)})
  {
    var i, j :| 0 <= i < j < |c| && Neg(c[i]) !in vals && Neg(c[j]) !in vals;
    assert c[i] in ToSet(c) && c[j] in ToSet(c) && c[i] != c[j];
  }

  lemma InsertedStock(cs: seq<Stored>, st: Stored, c: Clause)
    requires st.live && multiset(st.lits) == multiset(c)
    ensures StockOf(cs + [st]) == StockOf(cs) + multiset{ToSet(c)}
  {
    StockPush(cs, st);
    SameLiterals(c, st.lits);
  }

  lemma ChangedFollows(active: Stock, inconsistent: bool, c: Clause, vals: set<Lit>, cs: seq<Stored>,
                       inconsistent': bool, vals': set<Lit>, cs': seq<Stored>)
    requires Changed(inconsistent, c, vals, cs, inconsistent', vals', cs') && (inconsistent || Covers(active, StockOf(cs), vals))
    ensures inconsistent' || Covers(active + multiset{ToSet(c)}, StockOf(cs'), vals')
  {
    hide Covers, TakenIn, Idle;
    if !inconsistent {
      if Trivial(c, vals) {
        TrivialIdle(c, vals);
        CoversIdle(active, StockOf(cs), vals, ToSet(c));
      } else {
        CoversTaken(active, StockOf(cs), vals, ToSet(c), inconsistent', vals', StockOf(cs'));
      }
    }
  }

  /** One clause with these literals left the stock, and perhaps all satisfied ones. */
  ghost predicate TakenOut(s: set<Lit>, vals: set<Lit>, stock: Stock, stock': Stock) {
    s in stock && (stock' == stock - multiset{s} || Swept(stock - multiset{s}, stock', vals))
  }

  lemma FoundOut(cs: seq<Stored>, id: nat, simplified: Clause, c: Clause)
    requires LiveAt(cs, id) && SameSet(cs[id].lits, simplified) && SameSet(simplified, c)
    ensures ToSet(c) in StockOf(cs) && StockOf(Garbage(cs, id)) == StockOf(cs) - multiset{ToSet(c)}
  {
    SameSetToSet(cs[id].lits, simplified);
    SameSetToSet(simplified, c);
    StockLive(cs, ToSet(c));
    StockUpdate(cs, id, cs[id].(live := false));
  }

  lemma OutOnce(s: set<Lit>, vals: set<Lit>, stock: Stock, stock': Stock)
    requires s in stock && stock' == stock - multiset{s}
    ensures TakenOut(s, vals, stock, stock')
  {
  }

  lemma OutSwept(s: set<Lit>, vals: set<Lit>, stock: Stock, stock1: Stock, stock': Stock)
    requires s in stock && stock1 == stock - multiset{s} && Swept(stock1, stock', vals)
    ensures TakenOut(s, vals, stock, stock')
  {
  }

  lemma DeletedFollows(active: Stock, inconsistent: bool, c: Clause, vals: set<Lit>, cs: seq<Stored>, cs': seq<Stored>, found: bool)
    requires inconsistent || Covers(active, StockOf(cs), vals)
    requires inconsistent || Trivial(c, vals) || !found ==> cs' == cs
    requires inconsistent || Trivial(c, vals) ==> found
    requires !inconsistent && !Trivial(c, vals) && found ==> TakenOut(ToSet(c), vals, StockOf(cs), StockOf(cs'))
    requires !inconsistent && !Trivial(c, vals) ==> (found <==> exists i: nat | LiveAt(cs, i) :: SameSet(cs[i].lits, c))
    ensures inconsistent || Covers(if found then active - multiset{ToSet(c)} else active, StockOf(cs'), vals)
    ensures ToSet(c) in active ==> found
  {
    hide Covers, Swept, Trivial;
    if !inconsistent {
      if Trivial(c, vals) {
        CoversLess(active, StockOf(cs), vals, ToSet(c));
      } else if found {
        var stock1 := StockOf(cs) - multiset{ToSet(c)};
        assert stock1 + multiset{ToSet(c)} == StockOf(cs);
        CoversRemoved(active, StockOf(cs), stock1, StockOf(cs'), vals, ToSet(c));
      } else if ToSet(c) in active {
        TrivialIdle(c, vals);
        StoredOf(active, cs, vals, c);
      }
    }
  }

  lemma StoredOf(active: Stock, cs: seq<Stored>, vals: set<Lit>, c: Clause)
    requires Covers(active, StockOf(cs), vals) && ToSet(c) in active && !Idle(ToSet(c), vals)
    ensures exists i: nat | LiveAt(cs, i) :: SameSet(cs[i].lits, c)
  {
    StockLive(cs, ToSet(c));
    var i: nat :| LiveAt(cs, i) && ToSet(cs[i].lits) == ToSet(c);
    forall l ensures l in cs[i].lits <==> l in c {
      assert l in ToSet(cs[i].lits) <==> l in ToSet(c);
    }
  }

  /** Naive unit propagation over clauses on record finds a conflict when the clause is false. */
  ghost predicate Confirmed(active: Stock, c: Clause) {
    exists f: set<Clause> :: Among(f, active) && NaiveConflict(f, Negs(c))
  }

  lemma NotConfirmed(cs: seq<Stored>, active: Stock, vals: set<Lit>, c: Clause)
    requires Covers(active, StockOf(cs), vals) && Stuck(LiveClauses(cs), vals + Negs(c))
    ensures !Confirmed(active, c)
  {
    hide Covers, Stuck, NaiveConflict, Among, LiveClauses;
    forall f: set<Clause> ensures !(Among(f, active) && NaiveConflict(f, Negs(c))) {
      if Among(f, active) {
        RecordRest(cs, active, vals, f, Negs(c));
      }
    }
  }

  lemma TrivialIdle(c: Clause, vals: set<Lit>)
    ensures Trivial(c, vals) <==> Idle(ToSet(c), vals)
  {
    assert forall l :: l in c <==> l in ToSet(c);
  }

  lemma SameStoreStock(cs: seq<Stored>, cs': seq<Stored>)
    requires SameStore(cs, cs')
    ensures StockOf(cs') == StockOf(cs)
  {
    StockSame(cs, cs');
  }

  lemma SameSetToSet(a: Clause, b: Clause)
    requires SameSet(a, b)
    ensures ToSet(a) == ToSet(b)
  {
  }

  class Checker {
    var inconsistent: bool
    var clauses: seq<Stored>
    var watchers: Watchers
    var trail: seq<Lit>
    var vals: set<Lit>
    var next: nat
    const nonces: seq<nat>
    var table: Table
    var numClauses: nat
    ghost var original: set<Clause>

    // The clauses added and not deleted, as sets of literals.
    ghost var active: Stock

    /** The hash table agrees with the live clauses. */
    ghost predicate Tabled()
      reads this
    {
      && |nonces| > 0 && AllKeyed(nonces, clauses) && Filed(clauses, table, LiveIds(clauses))
      && numClauses == |LiveIds(clauses)| && (|table| == 0 || PowerOfTwo(|table|))
    }

    /** A clause that is stored can be looked up. */
    lemma StoredTable()
      requires Valid()
      ensures (exists i: nat :: LiveAt(clauses, i)) ==> PowerOfTwo(|table|)
    {
      hide Structure, StoreSound, Implied, ConsistentSet, Unsat, AllKeyed;
      if i: nat :| LiveAt(clauses, i) {
        assert i in LiveIds(clauses);
      }
    }

    /** With an empty table no clause is on record but idle ones. */
    lemma Absent(c: Clause)
      requires Following() && !inconsistent && !Trivial(c, vals) && |table| == 0
      ensures ToSet(c) !in active
    {
      hide Structure, StoreSound, Implied, ConsistentSet, Unsat, AllKeyed, Covers, StockOf, Trivial, SameSet;
      StoredTable();
      assert forall k :: Pow2(k) != 0;
      TrivialIdle(c, vals);
      if ToSet(c) in active {
        StoredOf(active, clauses, vals, c);
      }
    }

    /** Everything was propagated on the root level. */
    ghost predicate AtRoot()
      reads this
    {
      next == |trail| && Structure(clauses, watchers, vals, vals, vals)
    }

    /** Root units, stored clauses and the inconsistency follow from the original clauses. */
    ghost predicate Valid()
      reads this
    {
      && Assigned({}) && Tabled()
      && (inconsistent ==> Unsat(original, {})) && (!inconsistent ==> AtRoot())
    }

    /** Every clause added and not deleted is still in the store, unless it is idle. */
    ghost predicate Following()
      reads this
    {
      Valid() && (inconsistent || Covers(active, StockOf(clauses), vals))
    }

    constructor (nonces: seq<nat>)
      requires |nonces| > 0
      ensures Following() && original == {} && !inconsistent && clauses == [] && active == multiset{}
    {
      this.nonces := nonces;
      inconsistent, clauses, watchers, trail, vals, next := false, [], map[], [], {}, 0;
      table, numClauses, original, active := [], 0, {}, multiset{};
    }

    /** The assignment follows from the original clauses and the assumptions `a`. */
    ghost predicate Assigned(a: set<Lit>)
      reads this
    {
      && vals == ToSet(trail) && Distinct(trail) && ConsistentSet(vals)
      && StoreSound(original, clauses) && Implied(original, a, vals)
    }

    method Assign(l: Lit, ghost a: set<Lit>, ghost c: Clause)
      requires Assigned(a) && l !in vals && Neg(l) !in vals && Entails(original, c) && UnitUnder(c, vals, l)
      modifies this`trail, this`vals
      ensures Assigned(a) && vals == old(vals) + {l} && trail == old(trail) + [l]
    {
      AssignFollows(original, a, vals, c, l);
      hide Implied, StoreSound;
      assert l !in trail;
      trail := trail + [l];
      vals := vals + {l};
    }

    /** One entry of the list of the false literal np; keep' takes the place of keep and the entry. */
    method VisitWatch(np: Lit, keep: seq<Watch>, w: Watch, rest: seq<Watch>, ghost p: set<Lit>, ghost base: set<Lit>, ghost a: set<Lit>)
        returns (res: bool, keep': seq<Watch>)
      requires Assigned(a) && Structure(clauses, watchers, p, vals, base) && p <= vals && base <= vals && Neg(np) in vals
      requires Ws(watchers, np) == keep + [w] + rest && Todo(clauses, np, vals, [w] + rest)
      modifies this`clauses, this`watchers, this`trail, this`vals
      ensures Assigned(a) && Structure(clauses, watchers, p, vals, base) && old(vals) <= vals && old(trail) <= trail
      ensures Ws(watchers, np) == keep' + rest && (res ==> Todo(clauses, np, vals, rest))
      ensures !res ==> Unsat(original, a)
      ensures SameStore(old(clauses), clauses) && vals <= old(vals) + AllLits(clauses)
    {
      hide SameStore, AllLits, Implied, StoreSound, ConsistentSet, Structure, Todo, Distinct, Ws, Entails, HasTrue, Consistent, Unsat, Watched;
      SameStoreSelf(clauses);
      assert w in Ws(watchers, np);
      StructureEntry(clauses, watchers, np, w, p, vals, base);
      ghost var lits := clauses[w.clause].lits;
      res, keep' := true, keep + [w];
      if w.blit in vals {
        WatchTrue(lits, vals, w.blit);
        TodoDone(clauses, np, vals, w, rest);
      } else if w.size == 2 {
        BinaryLits(lits, np, w.blit);
        LitAt(clauses, w.clause, w.blit);
        SoundAt(original, clauses, w.clause);
        if Neg(w.blit) in vals {
          ConflictFollows(original, a, vals, lits);
          res := false;
        } else {
          ghost var vals0 := vals;
          Assign(w.blit, a, lits);
          MoreTrue(clauses, watchers, p, vals0, vals, base);
          MoreTrueTodo(clauses, np, vals0, vals, [w] + rest);
          WatchTrue(lits, vals, w.blit);
          TodoDone(clauses, np, vals, w, rest);
        }
      } else if !clauses[w.clause].live {
        DroppedEntry(clauses, watchers, np, keep, w, rest, p, vals, base);
        TodoDone(clauses, np, vals, w, rest);
        keep' := keep;
        watchers := watchers[np := keep + rest];
        WsAt(watchers, np);
      } else {
        LongSize(clauses, watchers, np, w, p, vals, base);
        res, keep' := VisitLong(np, keep, w, rest, p, base, a);
      }
    }

    /** All entries of the list of the false literal np. */
    method PropagateList(np: Lit, ghost p: set<Lit>, ghost base: set<Lit>, ghost a: set<Lit>) returns (res: bool)
      requires Assigned(a) && Structure(clauses, watchers, p, vals, base) && p <= vals && base <= vals && Neg(np) in vals
      modifies this`clauses, this`watchers, this`trail, this`vals
      ensures Assigned(a) && old(vals) <= vals && old(trail) <= trail
      ensures Structure(clauses, watchers, if res then p + {Neg(np)} else p, vals, base)
      ensures !res ==> Unsat(original, a)
      ensures SameStore(old(clauses), clauses) && vals <= old(vals) + AllLits(clauses)
    {
      hide SameStore, AllLits, Implied, StoreSound, ConsistentSet, Structure, Todo, Distinct, Ws, Unsat;
      var ws := Ws(watchers, np);
      SameStoreSelf(clauses);
      StartList(clauses, watchers, np, p, vals, base);
      var keep: seq<Watch> := [];
      var i := 0;
      res := true;
      assert keep + ws[0..] == ws && ws[0..] == ws;
      while i < |ws| && res
        invariant 0 <= i <= |ws| && Assigned(a) && Structure(clauses, watchers, p, vals, base)
        invariant old(vals) <= vals && old(trail) <= trail && Ws(watchers, np) == keep + ws[i..]
        invariant res ==> Todo(clauses, np, vals, ws[i..])
        invariant !res ==> Unsat(original, a)
        invariant SameStore(old(clauses), clauses) && vals <= old(vals) + AllLits(clauses)
      {
        SplitAt(ws, i, keep);
        ghost var cs := clauses;
        res, keep := VisitWatch(np, keep, ws[i], ws[i + 1..], p, base, a);
        SameStoreTransitive(old(clauses), cs, clauses);
        SameStoreLits(cs, clauses);
        i := i + 1;
      }
      if res {
        assert ws[i..] == [];
        TodoEnd(clauses, watchers, np, p, vals, base);
      }
    }

    /**
     `propagate`: on success everything on the trail was propagated, and on failure the original
     clauses and the assumptions contradict each other.
     */
    method Propagate(ghost base: set<Lit>, ghost a: set<Lit>) returns (res: bool)
      requires Assigned(a) && next <= |trail| && base <= vals
      requires Structure(clauses, watchers, ToSet(trail[..next]), vals, base)
      modifies this`clauses, this`watchers, this`trail, this`vals, this`next
      ensures Assigned(a) && next <= |trail| && old(vals) <= vals && old(trail) <= trail
      ensures Structure(clauses, watchers, if res then vals else {}, vals, base)
      ensures res ==> next == |trail|
      ensures !res ==> Unsat(original, a)
      ensures SameStore(old(clauses), clauses) && vals <= old(vals) + AllLits(clauses)
    {
      hide SameStore, AllLits, Implied, StoreSound, Structure, Unsat, Distinct, ConsistentSet;
      res := true;
      ghost var u := vals + AllLits(clauses);
      SameStoreSelf(clauses);
      while res && next < |trail|
        invariant Assigned(a) && next <= |trail| && base <= vals && old(vals) <= vals && old(trail) <= trail
        invariant res ==> Structure(clauses, watchers, ToSet(trail[..next]), vals, base)
        invariant !res ==> Structure(clauses, watchers, {}, vals, base) && Unsat(original, a)
        invariant SameStore(old(clauses), clauses) && vals <= u && AllLits(clauses) <= u
        decreases |u| - next
      {
        TrailBound(trail, u);
        var lit := trail[next];
        ghost var p := ToSet(trail[..next]);
        ghost var t := trail;
        next := next + 1;
        assert Neg(Neg(lit)) == lit;
        ghost var cs := clauses;
        res := PropagateList(Neg(lit), p, base, a);
        SameStoreTransitive(old(clauses), cs, clauses);
        SameStoreLits(cs, clauses);
        NextSet(t, trail, next - 1);
        if !res {
          FewerPropagated(clauses, watchers, p, {}, vals, base);
        }
      }
      SameStoreLits(old(clauses), clauses);
      AllSet(trail);
    }

    /** `backtrack` to the root level. */
    method Backtrack(n: nat, ghost base: set<Lit>)
      requires n <= |trail| && vals == ToSet(trail) && Distinct(trail) && base == ToSet(trail[..n])
      modifies this`trail, this`vals, this`next
      ensures trail == old(trail)[..n] && vals == base && next == n
    {
      while |trail| > n
        invariant n <= |trail| <= |old(trail)| && trail == old(trail)[..|trail|] && vals == ToSet(trail)
        decreases |trail|
      {
        var last := |trail| - 1;
        var lit := trail[last];
        assert trail == trail[..last] + [lit];
        assert lit !in trail[..last];
        vals := vals - {lit};
        assert vals == ToSet(trail[..last]);
        trail := trail[..last];
      }
      next := n;
    }

    /** The negations of the literals are assumed. */
    method AssumeAll(c: Clause, ghost base: set<Lit>)
      requires Assigned({}) && Structure(clauses, watchers, base, vals, base) && base == vals
      requires Consistent(c) && !HasTrue(c, vals)
      modifies this`trail, this`vals
      ensures Assigned(Negs(c)) && Structure(clauses, watchers, base, vals, base)
      ensures vals == old(vals) + Negs(c) && old(trail) <= trail
    {
      hide StoreSound, Structure, Distinct;
      ImpliedStart(original, Negs(c), vals);
      for k := 0 to |c|
        invariant Assigned(Negs(c)) && Structure(clauses, watchers, base, vals, base)
        invariant vals == base + Negs(c[..k]) && old(trail) <= trail
      {
        var l := Neg(c[k]);
        assert c[k] in c && l in Negs(c);
        NegsStep(c, k);
        AssumeConsistent(c, base, k);
        if l !in vals {
          ImpliedAssume(original, Negs(c), vals, l);
          MoreTrue(clauses, watchers, base, vals, vals + {l}, base);
          AppendDistinct(trail, l);
          trail := trail + [l];
          vals := vals + {l};
        }
      }
      assert c[..|c|] == c;
    }

    /**
     `check`: accepts only clauses that follow, and rejects only clauses that naive unit
     propagation over the live clauses does not confirm either. Nothing stays assigned.
     */
    method Check(c: Clause) returns (res: bool)
      requires Valid() && Consistent(c) && !HasTrue(c, vals)
      modifies this`clauses, this`watchers, this`trail, this`vals, this`next
      ensures Valid() && trail == old(trail) && vals == old(vals) && SameStore(old(clauses), clauses)
      ensures res ==> Entails(original, c)
      ensures !res ==> !inconsistent && Stuck(LiveClauses(clauses), vals + Negs(c)) && !NaiveConflict(LiveClauses(clauses), vals + Negs(c))
    {
      hide SameStore, Structure, StoreSound, Distinct, AllKeyed, Filed, LiveIds, Implied, ConsistentSet, Entails, Unsat, Stuck, NaiveConflict, LiveClauses, HasTrue, Consistent, Negs;
      SameStoreSelf(clauses);
      if inconsistent {
        UnsatEntails(original, c);
        return true;
      }
      var n := next;
      ghost var base, trail0 := vals, trail;
      assert trail0[..n] == trail0;
      AssumeAll(c, base);
      assert trail[..n] == trail0;
      var ok := Propagate(base, Negs(c));
      if ok {
        QuiescentEnd(clauses, watchers, base, vals, Negs(c));
        StuckQuiet(LiveClauses(clauses), base + Negs(c));
      } else {
        UnsatEntailsNegs(original, c);
      }
      assert trail[..n] == trail0;
      SameStoreTable(nonces, old(clauses), clauses, table);
      RootAgain(clauses, watchers, if ok then vals else {}, vals, base);
      Backtrack(n, base);
      res := !ok;
    }

    /** `insert` with `new_clause`: two unassigned literals watch the clause. */
    method InsertClause(c: Clause)
      requires Valid() && !inconsistent && Entails(original, c)
      requires StrictlySorted(c) && Consistent(c) && !HasTrue(c, vals) && ManyFree(c, vals)
      modifies this`clauses, this`watchers, this`table, this`numClauses
      ensures Valid() && numClauses == old(numClauses) + 1 && |table| > 0
      ensures |clauses| == |old(clauses)| + 1 && clauses[..|old(clauses)|] == old(clauses)
      ensures SameSet(clauses[|old(clauses)|].lits, c) && clauses[|old(clauses)|].live
      ensures StockOf(clauses) == StockOf(old(clauses)) + multiset{ToSet(c)}
    {
      hide Structure, StoreSound, Distinct, AllKeyed, Filed, LiveIds, Implied, ConsistentSet, Entails, Unsat, HasTrue, Consistent, Hash, Bucket, ManyFree, StockOf, Entry, Covers;
      if numClauses == |table| {
        table := Enlarge(clauses, table, LiveIds(clauses));
      }
      TableSize(clauses, table, numClauses);
      var lits := PickWatches(c, vals);
      var hash := Hash(nonces, c);
      var h := Bucket(hash, |table|);
      var id := |clauses|;
      var st := Stored(lits, hash, true);
      var cs := clauses + [st];
      InsertStructure(original, clauses, watchers, vals, c, st);
      InsertTable(nonces, clauses, table, c, st);
      watchers := AddWatch(AddWatch(watchers, lits[0], Watch(lits[1], |lits|, id)), lits[1], Watch(lits[0], |lits|, id));
      InsertedStock(clauses, st, c);
      clauses := cs;
      numClauses := numClauses + 1;
      table := table[h := [id] + table[h]];
    }

    /** `add_clause`: a falsified clause, a unit, or a clause to be stored. */
    method AddClause(c: Clause)
      requires Valid() && !inconsistent && Entails(original, c)
      requires StrictlySorted(c) && Consistent(c) && !HasTrue(c, vals)
      modifies this`inconsistent, this`clauses, this`watchers, this`trail, this`vals, this`next, this`table, this`numClauses
      ensures Valid() && (old(|table|) > 0 || ManyFree(c, old(vals)) ==> |table| > 0)
      ensures TakenIn(ToSet(c), old(vals), StockOf(old(clauses)), inconsistent, vals, StockOf(clauses))
    {
      hide SameStore, Structure, StoreSound, AllKeyed, Filed, LiveIds, Implied, ConsistentSet, Entails, Unsat, HasTrue, Consistent, ManyFree, UnitUnder, Falsified, StockOf, TakenIn, Covers;
      var left := FindUnit(c, vals);
      match left {
        case Nothing =>
          ConflictFollows(original, {}, vals, c);
          TakenNothing(c, vals, StockOf(clauses));
          inconsistent := true;
        case One(unit) =>
          ghost var base, trail0 := vals, trail;
          UnitFree(c, vals, unit);
          Assign(unit, {}, c);
          MoreTrue(clauses, watchers, base, base, vals, base);
          assert trail[..next] == trail0;
          var ok := Propagate(base, {});
          SameStoreTable(nonces, old(clauses), clauses, table);
          SameStoreStock(old(clauses), clauses);
          if ok {
            RootNow(clauses, watchers, vals, base);
          } else {
            inconsistent := true;
          }
          TakenOne(c, base, StockOf(clauses), unit, inconsistent, vals);
        case Many =>
          StrictlySortedDistinct(c);
          TakenMany(c, vals, StockOf(clauses));
          InsertClause(c);
      }
    }

    /** `add_original_clause`: unless it is trivial the clause is taken in. */
    method AddOriginalClause(c: Clause)
      requires Valid()
      modifies this
      ensures Valid() && original == old(original) + {c} && (old(|table|) > 0 ==> |table| > 0)
      ensures Changed(old(inconsistent), c, old(vals), old(clauses), inconsistent, vals, clauses)
      ensures active == old(active) + multiset{ToSet(c)} && (old(Following()) ==> Following())
    {
      hide Structure, StoreSound, AllKeyed, Filed, LiveIds, Implied, ConsistentSet, Entails, Unsat, SameSet, HasTrue, Covers, TakenIn, StockOf, Changed, Trivial;
      ghost var inconsistent0, vals0, clauses0 := inconsistent, vals, clauses;
      MoreOriginal(original, original + {c}, vals, clauses);
      original := original + {c};
      ChangedNothing(inconsistent, c, vals, clauses);
      if !inconsistent {
        var trivial, simplified := Tautological(c, vals);
        if !trivial {
          OriginalEntails(original, c, simplified);
          SimplifiedFalse(c, simplified, vals);
          SameSetToSet(simplified, c);
          AddClause(simplified);
          ChangedTaken(c, vals0, clauses0, inconsistent, vals, clauses);
        }
      }
      if inconsistent0 || Covers(active, StockOf(clauses0), vals0) {
        ChangedFollows(active, inconsistent0, c, vals0, clauses0, inconsistent, vals, clauses);
      }
      active := active + multiset{ToSet(c)};
    }

    /**
     `add_derived_clause`: every clause that is accepted follows from the original clauses added so
     far and is taken in. Every clause that naive unit propagation over the clauses added and not
     deleted confirms is accepted.
     */
    method AddDerivedClause(c: Clause) returns (ok: bool)
      requires Valid()
      modifies this
      ensures Valid() && original == old(original) && (old(|table|) > 0 ==> |table| > 0)
      ensures ok ==> Entails(original, c)
      ensures ok ==> Changed(old(inconsistent), c, old(vals), old(clauses), inconsistent, vals, clauses)
      ensures !ok ==> !inconsistent && SameStore(old(clauses), clauses) && vals == old(vals)
      ensures !ok ==> Stuck(LiveClauses(clauses), vals + Negs(c)) && !NaiveConflict(LiveClauses(clauses), vals + Negs(c))
      ensures active == (if ok then old(active) + multiset{ToSet(c)} else old(active)) && (old(Following()) ==> Following())
      ensures old(Following()) && Confirmed(old(active), c) ==> ok
    {
      hide Structure, StoreSound, AllKeyed, Filed, LiveIds, Implied, ConsistentSet, Entails, Unsat, HasTrue, NaiveConflict, LiveClauses, SameStore, SameSet, Negs,
        Covers, TakenIn, Stuck, Confirmed, StockOf, Changed, Trivial;
      ghost var inconsistent0, vals0, clauses0 := inconsistent, vals, clauses;
      ok := true;
      ChangedNothing(inconsistent, c, vals, clauses);
      if inconsistent {
        UnsatEntails(original, c);
      } else {
        var trivial, simplified := Tautological(c, vals);
        if trivial {
          TrivialEntails(original, c, vals);
        } else {
          SimplifiedFalse(c, simplified, vals);
          ok := Check(simplified);
          SameNegs(c, simplified);
          SameStoreStock(clauses0, clauses);
          if ok {
            SameEntails(original, simplified, c);
            SameSetToSet(simplified, c);
            AddClause(simplified);
            ChangedTaken(c, vals0, clauses0, inconsistent, vals, clauses);
          } else {
            if Covers(active, StockOf(clauses), vals) {
              NotConfirmed(clauses, active, vals, c);
            }
          }
        }
      }
      if ok {
        if inconsistent0 || Covers(active, StockOf(clauses0), vals0) {
          ChangedFollows(active, inconsistent0, c, vals0, clauses0, inconsistent, vals, clauses);
        }
        active := active + multiset{ToSet(c)};
      }
    }

    /** Clause `id` at this place of the table becomes garbage. */
    method Unlink(b: nat, pos: nat)
      requires Valid() && !inconsistent && b < |table| && pos < |table[b]|
      modifies this`clauses, this`table, this`numClauses
      ensures Valid() && LiveAt(old(clauses), old(table[b][pos])) && clauses == Garbage(old(clauses), old(table[b][pos]))
      ensures table == old(table)[b := RemoveAt(old(table[b]), pos)] && |table[b]| == |old(table[b])| - 1
      ensures numClauses == old(numClauses) - 1
    {
      hide Structure, StoreSound, Implied, ConsistentSet, Unsat, AllKeyed, Filed, Distinct, RemoveAt;
      var id := table[b][pos];
      UnlinkTable(nonces, clauses, table, b, pos);
      GarbageStructure(original, clauses, watchers, vals, id);
      RemoveSize(table[b], pos);
      numClauses := numClauses - 1;
      table := table[b := RemoveAt(table[b], pos)];
      clauses := Garbage(clauses, id);
    }

    /** `collect_garbage_clauses`: exactly the satisfied clauses become garbage too, and no list keeps garbage. */
    method CollectGarbage()
      requires Valid() && !inconsistent
      modifies this`clauses, this`table, this`numClauses, this`watchers
      ensures Valid() && |table| == old(|table|)
      ensures forall i: nat :: LiveAt(clauses, i) <==> LiveAt(old(clauses), i) && !HasTrue(old(clauses[i]).lits, vals)
      ensures forall i: nat | LiveAt(clauses, i) :: LiveAt(old(clauses), i) && clauses[i] == old(clauses[i])
      ensures Swept(StockOf(old(clauses)), StockOf(clauses), vals)
    {
      hide Structure, StoreSound, Implied, ConsistentSet, Unsat, AllKeyed, Filed, Distinct, RemoveAt, HasTrue, LiveIds, StockOf, RowClean, Collected;
      CollectedStart(clauses, vals);
      for b := 0 to |table|
        invariant Valid() && |table| == |old(table)| && Collected(old(clauses), clauses, vals)
        invariant forall x | 0 <= x < b :: RowClean(clauses, table[x], vals)
      {
        ghost var cs := clauses;
        CleanRow(b);
        CollectedTransitive(old(clauses), cs, clauses, vals);
      }
      EveryRow(clauses, table, vals);
      CollectedEnd(old(clauses), clauses, vals);
      FlushStructure(clauses, watchers, vals);
      watchers := Flushed(clauses, watchers);
    }

    /** One chain of the table. */
    method CleanRow(b: nat)
      requires Valid() && !inconsistent && b < |table| && forall x | 0 <= x < b :: RowClean(clauses, table[x], vals)
      modifies this`clauses, this`table, this`numClauses
      ensures Valid() && |table| == |old(table)| && Collected(old(clauses), clauses, vals)
      ensures forall x | 0 <= x <= b :: RowClean(clauses, table[x], vals)
    {
      hide Structure, StoreSound, Implied, ConsistentSet, Unsat, AllKeyed, Filed, Distinct, RemoveAt, HasTrue, LiveIds, RowClean, Collected;
      CollectedStart(clauses, vals);
      RowStart(clauses, table[b], vals);
      var pos := 0;
      while pos < |table[b]|
        invariant Valid() && |table| == |old(table)| && pos <= |table[b]| && Collected(old(clauses), clauses, vals)
        invariant forall x | 0 <= x < b :: RowClean(clauses, table[x], vals)
        invariant RowClean(clauses, table[b][..pos], vals)
        decreases |table[b]| - pos
      {
        FiledLive(clauses, table, b, pos);
        if HasTrue(clauses[table[b][pos]].lits, vals) {
          ghost var id, cs, row := table[b][pos], clauses, table[b];
          CollectedStep(old(clauses), clauses, vals, id);
          Unlink(b, pos);
          RowsGarbage(cs, id, table[..b], vals);
          RowRemove(cs, id, row, table[b], pos, vals);
        } else {
          RowNext(clauses, table[b], pos, vals);
          pos := pos + 1;
        }
      }
      assert table[b][..pos] == table[b];
    }

    /** The clause that was found leaves its chain; at times garbage is collected. */
    method TakeOut(b: nat, pos: nat, ghost simplified: Clause, ghost c: Clause)
      requires Valid() && !inconsistent && b < |table| && pos < |table[b]| && LiveAt(clauses, table[b][pos])
      requires SameSet(clauses[table[b][pos]].lits, simplified) && SameSet(simplified, c)
      modifies this`clauses, this`table, this`numClauses, this`watchers
      ensures Valid() && |table| == old(|table|) && TakenOut(ToSet(c), vals, StockOf(old(clauses)), StockOf(clauses))
    {
      hide Structure, StoreSound, Implied, ConsistentSet, Unsat, AllKeyed, Filed, Distinct, RemoveAt, HasTrue, LiveIds, StockOf, SameSet, Garbage, TakenOut;
      ghost var clauses0 := clauses;
      FoundOut(clauses, table[b][pos], simplified, c);
      Unlink(b, pos);
      OutOnce(ToSet(c), vals, StockOf(clauses0), StockOf(clauses));
      var collect: bool := *;
      if collect {
        ghost var cs := clauses;
        CollectGarbage();
        OutSwept(ToSet(c), vals, StockOf(clauses0), StockOf(cs), StockOf(clauses));
      }
    }

    /**
     `delete_clause`: finds a live clause with the same literals, if there is one, and takes it out;
     at most satisfied clauses go with it.
     */
    method DeleteClause(c: Clause) returns (found: bool)
      requires Valid() && (inconsistent || Trivial(c, vals) || |table| > 0)
      modifies this`clauses, this`table, this`numClauses, this`watchers, this`active
      ensures Valid() && |table| == old(|table|)
      ensures !inconsistent && !Trivial(c, vals) ==> (found <==> exists i: nat | LiveAt(old(clauses), i) :: SameSet(old(clauses[i]).lits, c))
      ensures inconsistent || Trivial(c, vals) || !found ==> clauses == old(clauses) && table == old(table)
      ensures !inconsistent && !Trivial(c, vals) && found ==> TakenOut(ToSet(c), vals, StockOf(old(clauses)), StockOf(clauses))
      ensures active == (if found then old(active) - multiset{ToSet(c)} else old(active)) && (old(Following()) ==> Following())
      ensures old(Following()) && ToSet(c) in old(active) ==> found
    {
      hide Structure, StoreSound, Implied, ConsistentSet, Unsat, AllKeyed, Filed, Distinct, RemoveAt, HasTrue, LiveIds, StockOf, Covers, Trivial, SameSet, TakenOut;
      found := true;
      ghost var clauses0 := clauses;
      if !inconsistent {
        var trivial, simplified := Tautological(c, vals);
        if !trivial {
          StoreOkOf(clauses, watchers, vals);
          var b, pos := Find(nonces, clauses, table, simplified);
          SameSetAll(clauses, simplified, c);
          found := pos.Some?;
          if found {
            TakeOut(b, pos.value, simplified, c);
          }
        }
      }
      if inconsistent || Covers(active, StockOf(clauses0), vals) {
        DeletedFollows(active, inconsistent, c, vals, clauses0, clauses, found);
      }
      if found {
        active := active - multiset{ToSet(c)};
      }
    }

    /** A long live clause on the list of the false literal np. */
    method VisitLong(np: Lit, keep: seq<Watch>, w: Watch, rest: seq<Watch>, ghost p: set<Lit>, ghost base: set<Lit>, ghost a: set<Lit>)
        returns (res: bool, keep': seq<Watch>)
      requires Assigned(a) && Structure(clauses, watchers, p, vals, base) && p <= vals && base <= vals && Neg(np) in vals
      requires Ws(watchers, np) == keep + [w] + rest && Todo(clauses, np, vals, [w] + rest)
      requires w.size > 2 && LiveAt(clauses, w.clause)
      modifies this`clauses, this`watchers, this`trail, this`vals
      ensures Assigned(a) && Structure(clauses, watchers, p, vals, base) && old(vals) <= vals && old(trail) <= trail
      ensures Ws(watchers, np) == keep' + rest && (res ==> Todo(clauses, np, vals, rest))
      ensures !res ==> Unsat(original, a)
      ensures SameStore(old(clauses), clauses) && vals <= old(vals) + AllLits(clauses)
    {
      hide SameStore, AllLits, Implied, StoreSound, ConsistentSet, Structure, Todo, Distinct, Ws, Entails, HasTrue, Consistent, Unsat;
      SameStoreSelf(clauses);
      var c := w.clause;
      assert w in Ws(watchers, np);
      StructureEntry(clauses, watchers, np, w, p, vals, base);
      var lits := clauses[c].lits;
      OtherWatch(lits, np);
      var other := if lits[0] == np then lits[1] else lits[0];
      keep' := keep + [w];
      res := true;
      if other in vals {
        KeptEntry(clauses, watchers, np, keep, w, rest, other, p, vals, base);
        WatchTrue(lits, vals, other);
        TodoDone(clauses, np, vals, w, rest);
        keep' := keep + [w.(blit := other)];
        watchers := watchers[np := keep' + rest];
        WsAt(watchers, np);
        return;
      }
      res, keep' := ReplaceWatch(np, keep, w, rest, p, base, a);
    }

    /** The other watch is not true: another literal takes over the watch, or the other one is forced. */
    method ReplaceWatch(np: Lit, keep: seq<Watch>, w: Watch, rest: seq<Watch>, ghost p: set<Lit>, ghost base: set<Lit>, ghost a: set<Lit>)
        returns (res: bool, keep': seq<Watch>)
      requires Assigned(a) && Structure(clauses, watchers, p, vals, base) && p <= vals && base <= vals && Neg(np) in vals
      requires Ws(watchers, np) == keep + [w] + rest && Todo(clauses, np, vals, [w] + rest)
      requires LiveAt(clauses, w.clause) && Watched(clauses[w.clause].lits, np)
      requires var c := clauses[w.clause].lits; (if c[0] == np then c[1] else c[0]) !in vals
      modifies this`clauses, this`watchers, this`trail, this`vals
      ensures Assigned(a) && Structure(clauses, watchers, p, vals, base) && old(vals) <= vals && old(trail) <= trail
      ensures Ws(watchers, np) == keep' + rest && (res ==> Todo(clauses, np, vals, rest))
      ensures !res ==> Unsat(original, a)
      ensures SameStore(old(clauses), clauses) && vals <= old(vals) + AllLits(clauses)
    {
      hide SameStore, AllLits, Implied, StoreSound, ConsistentSet, Structure, Todo, Distinct, Ws, Entails, HasTrue, Consistent, Unsat;
      var c := w.clause;
      var lits := WatchesFirst(clauses[c].lits, np);
      ghost var cs := clauses;
      clauses := clauses[c := clauses[c].(lits := lits)];
      ReorderStep(original, cs, clauses, watchers, c, np, vals, [w] + rest, p, base);
      res, keep' := true, keep + [w];
      var k := FindReplacement(lits, vals);
      if k < |lits| {
        var r := lits[k];
        ghost var cs1, ws1 := clauses, watchers;
        clauses := clauses[c := clauses[c].(lits := Swapped(lits, k))];
        watchers := watchers[np := keep + rest][r := Ws(watchers, r) + [Watch(np, w.size, c)]];
        MoveStep(original, cs1, clauses, ws1, watchers, np, k, keep, w, rest, p, vals, base);
        SameStoreTransitive(cs, cs1, clauses);
        keep' := keep;
      } else {
        res := Force(np, w, rest, p, base, a);
      }
    }

    /** All literals but the first are false: it is assigned, or there is a conflict. */
    method Force(np: Lit, w: Watch, ghost rest: seq<Watch>, ghost p: set<Lit>, ghost base: set<Lit>, ghost a: set<Lit>) returns (res: bool)
      requires Assigned(a) && Structure(clauses, watchers, p, vals, base) && LiveAt(clauses, w.clause)
      requires Todo(clauses, np, vals, [w] + rest)
      requires var c := clauses[w.clause].lits; |c| >= 2 && c[0] !in vals && c[1] == np && Neg(np) in vals
      requires var c := clauses[w.clause].lits; forall x | 2 <= x < |c| :: Neg(c[x]) in vals
      modifies this`trail, this`vals
      ensures Assigned(a) && Structure(clauses, watchers, p, vals, base) && old(vals) <= vals && old(trail) <= trail
      ensures res ==> Todo(clauses, np, vals, rest)
      ensures !res ==> Unsat(original, a)
      ensures SameStore(old(clauses), clauses) && vals <= old(vals) + AllLits(clauses)
    {
      hide SameStore, AllLits, Implied, StoreSound, ConsistentSet, Structure, Todo, Distinct, HasTrue, Entails, Unsat;
      SameStoreSelf(clauses);
      ghost var c := w.clause;
      var lits := clauses[w.clause].lits;
      var other := lits[0];
      RestFalse(lits, vals, other, np);
      SoundAt(original, clauses, c);
      LitAt(clauses, c, other);
      res := Neg(other) !in vals;
      if res {
        ghost var vals0 := vals;
        Assign(other, a, lits);
        MoreTrue(clauses, watchers, p, vals0, vals, base);
        MoreTrueTodo(clauses, np, vals0, vals, [w] + rest);
        WatchTrue(lits, vals, other);
        TodoDone(clauses, np, vals, w, rest);
      } else {
        ConflictFollows(original, a, vals, lits);
      }
    }
  }

  method FindReplacement(lits: Clause, vals: set<Lit>) returns (k: nat)
    requires |lits| >= 2
    ensures 2 <= k <= |lits| && (k < |lits| ==> Neg(lits[k]) !in vals)
    ensures forall x | 2 <= x < k :: Neg(lits[x]) in vals
  {
    k := 2;
    while k < |lits| && Neg(lits[k]) in vals
      invariant 2 <= k <= |lits| && forall x | 2 <= x < k :: Neg(lits[x]) in vals
    {
      k := k + 1;
    }
  }

  lemma NextSet(t: seq<Lit>, t': seq<Lit>, n: nat)
    requires t <= t' && n < |t|
    ensures ToSet(t'[..n + 1]) == ToSet(t[..n]) + {t[n]}
  {
    assert t'[..n + 1] == t[..n] + [t[n]];
  }

  lemma AllSet(t: seq<Lit>)
    ensures ToSet(t[..|t|]) == ToSet(t)
  {
    assert t[..|t|] == t;
  }

  lemma LongSize(cs: seq<Stored>, watchers: Watchers, l: Lit, w: Watch, p: set<Lit>, s: set<Lit>, base: set<Lit>)
    requires Structure(cs, watchers, p, s, base) && w in Ws(watchers, l) && w.size != 2
    ensures w.size > 2
  {
    EntryFacts(cs, watchers, l, w);
  }

  lemma StartList(cs: seq<Stored>, watchers: Watchers, np: Lit, p: set<Lit>, s: set<Lit>, base: set<Lit>)
    requires Structure(cs, watchers, p, s, base)
    ensures Todo(cs, np, s, Ws(watchers, np))
  {
    TodoStart(cs, watchers, np, s);
  }

  lemma FewerPropagated(cs: seq<Stored>, watchers: Watchers, p: set<Lit>, p': set<Lit>, s: set<Lit>, base: set<Lit>)
    requires Structure(cs, watchers, p, s, base) && p' <= p
    ensures Structure(cs, watchers, p', s, base)
  {
    hide StoreOk, WatchesOk, AllListed;
  }

  lemma WsAt(watchers: Watchers, l: Lit)
    requires l in watchers
    ensures Ws(watchers, l) == watchers[l]
  {
  }

  lemma SoundAt(orig: set<Clause>, cs: seq<Stored>, i: nat)
    requires StoreSound(orig, cs) && i < |cs|
    ensures Entails(orig, cs[i].lits)
  {
  }

  lemma StructureEntry(cs: seq<Stored>, watchers: Watchers, l: Lit, w: Watch, p: set<Lit>, s: set<Lit>, base: set<Lit>)
    requires Structure(cs, watchers, p, s, base) && w in Ws(watchers, l)
    ensures WatchOk(cs, l, w) && Distinct(cs[w.clause].lits) && Consistent(cs[w.clause].lits)
  {
    hide WatchInv, AllListed;
    EntryFacts(cs, watchers, l, w);
  }

  lemma OtherWatch(c: Clause, np: Lit)
    requires Watched(c, np) && Distinct(c)
    ensures var other := if c[0] == np then c[1] else c[0]; other in c && other != np
  {
  }

  lemma WatchTrue(c: Clause, s: set<Lit>, l: Lit)
    requires l in c && l in s
    ensures HasTrue(c, s)
  {
  }

  /** All but the first literal are false. */
  lemma RestFalse(c: Clause, s: set<Lit>, other: Lit, np: Lit)
    requires |c| >= 2 && c[0] == other && c[1] == np && Neg(np) in s && forall x | 2 <= x < |c| :: Neg(c[x]) in s
    ensures UnitUnder(c, s, other) && (Neg(other) in s ==> Falsified(c, s))
  {
  }

  lemma ReorderStep(orig: set<Clause>, cs: seq<Stored>, cs': seq<Stored>, watchers: Watchers, c: nat, np: Lit, s: set<Lit>, rest: seq<Watch>, p: set<Lit>, base: set<Lit>)
    requires StoreSound(orig, cs) && Structure(cs, watchers, p, s, base) && Todo(cs, np, s, rest)
    requires LiveAt(cs, c) && Watched(cs[c].lits, np) && cs' == cs[c := cs[c].(lits := WatchesFirst(cs[c].lits, np))]
    ensures StoreSound(orig, cs') && Structure(cs', watchers, p, s, base) && Todo(cs', np, s, rest) && SameStore(cs, cs')
  {
    assert Distinct(cs[c].lits);
    WatchesFirstSame(cs[c].lits, np);
    assert Reordered(cs, cs', c);
    ReorderedSound(orig, cs, cs', c);
    ReorderedIsSame(cs, cs', c);
    hide StoreSound;
    ReorderedSame(cs, cs', watchers, c, p, s, base);
    TodoReordered(cs, cs', c, np, s, rest);
  }

  lemma MoveStep(orig: set<Clause>, cs: seq<Stored>, cs': seq<Stored>, watchers: Watchers, watchers': Watchers, np: Lit, k: nat,
                 keep: seq<Watch>, w: Watch, rest: seq<Watch>, p: set<Lit>, s: set<Lit>, base: set<Lit>)
    requires StoreSound(orig, cs) && Structure(cs, watchers, p, s, base) && Todo(cs, np, s, [w] + rest) && p <= s && base <= s
    requires LiveAt(cs, w.clause) && Ws(watchers, np) == keep + [w] + rest
    requires var lits := cs[w.clause].lits; 2 <= k < |lits| && lits[1] == np && Neg(lits[k]) !in s
    requires var lits := cs[w.clause].lits;
             && cs' == cs[w.clause := cs[w.clause].(lits := Swapped(lits, k))]
             && watchers' == watchers[np := keep + rest][lits[k] := Ws(watchers, lits[k]) + [Watch(np, w.size, w.clause)]]
    ensures StoreSound(orig, cs') && Structure(cs', watchers', p, s, base) && Todo(cs', np, s, rest) && SameStore(cs, cs')
    ensures Ws(watchers', np) == keep + rest
  {
    var c := w.clause;
    var lits := cs[c].lits;
    var r, o := lits[k], lits[0];
    assert Distinct(lits);
    assert r != np && o != r && o != np;
    var lits' := Swapped(lits, k);
    assert Reordered(cs, cs', c);
    assert forall l :: Watched(lits', l) <==> l == o || l == r;
    assert Moved(cs, cs', watchers, watchers', np, r, o, keep, w, rest);
    ReorderedSound(orig, cs, cs', c);
    ReorderedIsSame(cs, cs', c);
    hide StoreSound;
    MovedStructure(cs, cs', watchers, watchers', np, r, o, keep, w, rest, p, s, base);
    hide Structure, Moved, Reordered;
    TodoReordered(cs, cs', c, np, s, [w] + rest);
    TodoDone(cs', np, s, w, rest);
  }

  // ----- assumptions -----

  function Negs(c: Clause): (r: set<Lit>) {
    set l | l in c :: Neg(l)
  }

  lemma NegsStep(c: Clause, k: nat)
    requires k < |c|
    ensures Negs(c[..k + 1]) == Negs(c[..k]) + {Neg(c[k])}
  {
    assert c[..k + 1] == c[..k] + [c[k]];
  }

  lemma ImpliedStart(orig: set<Clause>, a: set<Lit>, s: set<Lit>)
    requires Implied(orig, {}, s)
    ensures Implied(orig, a, s)
  {
  }

  lemma ImpliedAssume(orig: set<Clause>, a: set<Lit>, s: set<Lit>, l: Lit)
    requires Implied(orig, a, s) && l in a
    ensures Implied(orig, a, s + {l})
  {
  }

  /** A negated literal of the clause does not clash with what was assumed before. */
  lemma AssumeConsistent(c: Clause, base: set<Lit>, k: nat)
    requires k < |c| && Consistent(c) && ConsistentSet(base + Negs(c[..k])) && !HasTrue(c, base)
    ensures ConsistentSet(base + Negs(c[..k]) + {Neg(c[k])})
  {
    var s := base + Negs(c[..k]);
    assert c[k] in c;
    forall l | l in c[..k] ensures Neg(l) != c[k] {
      assert l in c && Neg(Neg(l)) == l;
    }
    assert c[k] !in s;
    var x := c[k];
    forall l | l in s + {Neg(x)} ensures Neg(l) !in s + {Neg(x)} {
      assert Neg(Neg(x)) == x;
      assert Neg(l) == Neg(x) ==> l == x;
    }
  }

  lemma AppendDistinct(trail: seq<Lit>, l: Lit)
    requires Distinct(trail) && l !in ToSet(trail)
    ensures Distinct(trail + [l]) && ToSet(trail + [l]) == ToSet(trail) + {l}
  {
    assert l !in trail;
  }

  lemma UnsatEntails(orig: set<Clause>, c: Clause)
    requires Unsat(orig, {})
    ensures Entails(orig, c)
  {
    assert forall m: Assignment :: AllTrue(m, {});
  }

  lemma UnsatEntailsNegs(orig: set<Clause>, c: Clause)
    requires Unsat(orig, Negs(c))
    ensures Entails(orig, c)
  {
    forall m: Assignment | Sat(m, orig) ensures SatClause(m, c) {
      assert !AllTrue(m, Negs(c));
      var l :| l in Negs(c) && !True(m, l);
      var x :| x in c && Neg(x) == l;
      assert True(m, x);
    }
  }

  lemma QuiescentEnd(cs: seq<Stored>, watchers: Watchers, base: set<Lit>, s: set<Lit>, a: set<Lit>)
    requires Structure(cs, watchers, s, s, base) && ConsistentSet(s) && base + a <= s
    ensures Stuck(LiveClauses(cs), base + a)
  {
    forall c | c in LiveClauses(cs) ensures !Falsified(c, s) && forall l | UnitUnder(c, s, l) :: l in s {
      var i :| 0 <= i < |cs| && LiveAt(cs, i) && cs[i].lits == c;
      Quiescent(cs, s, i);
    }
    assert Rest(LiveClauses(cs), base + a, s);
  }

  lemma StuckQuiet(f: set<Clause>, s0: set<Lit>)
    requires Stuck(f, s0)
    ensures !NaiveConflict(f, s0)
  {
    var s :| Rest(f, s0, s);
    ClosedQuiet(f, s0, s);
  }

  /** The invariant of the root level survives the assumptions. */
  lemma RootAgain(cs: seq<Stored>, watchers: Watchers, p: set<Lit>, s: set<Lit>, base: set<Lit>)
    requires Structure(cs, watchers, p, s, base)
    ensures Structure(cs, watchers, base, base, base)
  {
  }

  // ----- adding -----

  /** At least two literals are not false. */
  ghost predicate ManyFree(c: Clause, vals: set<Lit>) {
    exists i, j | 0 <= i < j < |c| :: Neg(c[i]) !in vals && Neg(c[j]) !in vals
  }

  datatype Left = Nothing | One(unit: Lit) | Many

  /** The first loop of `add_clause`. */
  method FindUnit(c: Clause, vals: set<Lit>) returns (r: Left)
    ensures r.Nothing? ==> Falsified(c, vals)
    ensures r.One? ==> UnitUnder(c, vals, r.unit) && Neg(r.unit) !in vals
    ensures r.Many? <==> ManyFree(c, vals)
  {
    r := Nothing;
    ghost var at := 0;
    for k := 0 to |c|
      invariant r.Nothing? ==> forall x | 0 <= x < k :: Neg(c[x]) in vals
      invariant r.One? ==> at < k && c[at] == r.unit && Neg(r.unit) !in vals && forall x | 0 <= x < k && x != at :: Neg(c[x]) in vals
      invariant !r.Many?
    {
      if Neg(c[k]) !in vals {
        if r.One? {
          return Many;
        }
        r := One(c[k]);
        at := k;
      }
    }
  }

  lemma UnitFree(c: Clause, vals: set<Lit>, l: Lit)
    requires UnitUnder(c, vals, l) && !HasTrue(c, vals)
    ensures l !in vals
  {
  }

  lemma RootNow(cs: seq<Stored>, watchers: Watchers, s: set<Lit>, base: set<Lit>)
    requires Structure(cs, watchers, s, s, base)
    ensures Structure(cs, watchers, s, s, s)
  {
  }

  function SwapAt(c: Clause, i: nat, j: nat): (r: Clause)
    requires i <= j < |c|
    ensures |r| == |c| && multiset(r) == multiset(c)
  {
    c[i := c[j]][j := c[i]]
  }

  /** Two unassigned literals come first. */
  method PickWatches(c: Clause, vals: set<Lit>) returns (r: Clause)
    requires ManyFree(c, vals)
    ensures |r| >= 2 && multiset(r) == multiset(c) && Neg(r[0]) !in vals && Neg(r[1]) !in vals
  {
    ghost var x, y :| 0 <= x < y < |c| && Neg(c[x]) !in vals && Neg(c[y]) !in vals;
    var j := FirstFree(c, 0, vals, x);
    r := SwapAt(c, 0, j);
    assert 0 < y && j <= x < y && r[y] == c[y];
    j := FirstFree(r, 1, vals, y);
    r := SwapAt(r, 1, j);
  }

  method FirstFree(c: Clause, start: nat, vals: set<Lit>, ghost at: nat) returns (j: nat)
    requires start <= at < |c| && Neg(c[at]) !in vals
    ensures start <= j <= at && Neg(c[j]) !in vals
  {
    j := start;
    while Neg(c[j]) in vals
      invariant start <= j <= at
      decreases at - j
    {
      j := j + 1;
    }
  }

  function AddWatch(watchers: Watchers, l: Lit, w: Watch): (r: Watchers) {
    watchers[l := Ws(watchers, l) + [w]]
  }

  lemma TableSize(cs: seq<Stored>, table: Table, n: nat)
    requires Filed(cs, table, LiveIds(cs)) && n == |LiveIds(cs)| && (n == |table| ==> n > 0)
    ensures |table| > 0
  {
    assert |table| == 0 ==> LiveIds(cs) == {};
  }

  lemma InsertTable(nonces: seq<nat>, cs: seq<Stored>, table: Table, c: Clause, st: Stored)
    requires |nonces| > 0 && AllKeyed(nonces, cs) && Filed(cs, table, LiveIds(cs)) && |table| > 0
    requires StrictlySorted(c) && multiset(st.lits) == multiset(c) && st.hash == Hash(nonces, c) && st.live
    ensures var cs' := cs + [st]; var h := Bucket(st.hash, |table|);
            && AllKeyed(nonces, cs') && |LiveIds(cs')| == |LiveIds(cs)| + 1
            && Filed(cs', table[h := [|cs|] + table[h]], LiveIds(cs'))
    ensures SameSet(st.lits, c)
  {
    var cs' := cs + [st];
    SameMembers(st.lits, c);
    assert Keyed(nonces, st) by {
      forall k: Clause | StrictlySorted(k) && SameSet(k, st.lits) ensures st.hash == Hash(nonces, k) {
        SortedUnique(k, c);
      }
    }
    hide Hash, Bucket, Keyed;
    assert LiveIds(cs') == LiveIds(cs) + {|cs|};
    FiledSame(cs, cs', table, LiveIds(cs));
    FiledPush(cs', table, LiveIds(cs), |cs|);
  }

  lemma InsertStructure(orig: set<Clause>, cs: seq<Stored>, watchers: Watchers, s: set<Lit>, c: Clause, st: Stored)
    requires StoreSound(orig, cs) && Structure(cs, watchers, s, s, s) && Entails(orig, c)
    requires StrictlySorted(c) && Consistent(c) && multiset(st.lits) == multiset(c)
    requires |st.lits| >= 2 && Neg(st.lits[0]) !in s && Neg(st.lits[1]) !in s
    ensures var a, b := st.lits[0], st.lits[1]; var n := |st.lits|;
            && StoreSound(orig, cs + [st])
            && Structure(cs + [st], AddWatch(AddWatch(watchers, a, Watch(b, n, |cs|)), b, Watch(a, n, |cs|)), s, s, s)
  {
    var cs' := cs + [st];
    SameMembers(st.lits, c);
    StrictlySortedDistinct(c);
    DistinctPermutation(c, st.lits);
    assert Consistent(st.lits);
    assert Entails(orig, st.lits) by {
      SameEntails(orig, c, st.lits);
    }
    hide Consistent, Entails, StrictlySorted;
    assert StoreOk(cs');
    InsertInv(cs, st, s);
    InsertLists(cs, watchers, st);
    hide WatchInv, WatchesOk, AllListed, StoreOk;
  }

  lemma InsertInv(cs: seq<Stored>, st: Stored, s: set<Lit>)
    requires WatchInv(cs, s, s) && |st.lits| >= 2 && Neg(st.lits[0]) !in s && Neg(st.lits[1]) !in s
    ensures WatchInv(cs + [st], s, s)
  {
    var cs' := cs + [st];
    hide HasTrue;
    forall i: nat, l: Lit | LiveAt(cs', i) && Watched(cs'[i].lits, l) && Neg(l) in s ensures HasTrue(cs'[i].lits, s) {
      assert i < |cs|;
      assert LiveAt(cs, i);
    }
  }

  lemma InsertLists(cs: seq<Stored>, watchers: Watchers, st: Stored)
    requires WatchesOk(cs, watchers) && AllListed(cs, watchers) && |st.lits| >= 2 && Distinct(st.lits)
    ensures var a, b := st.lits[0], st.lits[1]; var n := |st.lits|;
            var watchers' := AddWatch(AddWatch(watchers, a, Watch(b, n, |cs|)), b, Watch(a, n, |cs|));
            WatchesOk(cs + [st], watchers') && AllListed(cs + [st], watchers')
  {
    var cs' := cs + [st];
    var a, b, n := st.lits[0], st.lits[1], |st.lits|;
    var watchers' := AddWatch(AddWatch(watchers, a, Watch(b, n, |cs|)), b, Watch(a, n, |cs|));
    assert a != b;
    WsPushed(watchers, a, Watch(b, n, |cs|), b, Watch(a, n, |cs|));
    hide Ws;
    assert WatchOk(cs', a, Watch(b, n, |cs|)) && WatchOk(cs', b, Watch(a, n, |cs|));
    forall l: Lit ensures ListOk(cs', l, Ws(watchers', l)) {
      assert ListOk(cs, l, Ws(watchers, l));
      OldEntries(cs, st, l, Ws(watchers, l));
      if l == a {
        AppendEntry(cs', l, Ws(watchers, l), Watch(b, n, |cs|));
      } else if l == b {
        AppendEntry(cs', l, Ws(watchers, l), Watch(a, n, |cs|));
      }
    }
    forall i: nat, l: Lit | LiveAt(cs', i) && Watched(cs'[i].lits, l) ensures Mentions(Ws(watchers', l), i) {
      if i == |cs| {
        assert Watch(b, n, |cs|) in Ws(watchers', a) && Watch(a, n, |cs|) in Ws(watchers', b);
      } else {
        assert LiveAt(cs, i);
        var w :| w in Ws(watchers, l) && w.clause == i;
        assert w in Ws(watchers', l);
      }
    }
  }

  lemma WsPushed(watchers: Watchers, a: Lit, wa: Watch, b: Lit, wb: Watch)
    requires a != b
    ensures var r := AddWatch(AddWatch(watchers, a, wa), b, wb);
            && Ws(r, a) == Ws(watchers, a) + [wa] && Ws(r, b) == Ws(watchers, b) + [wb]
            && forall l | l != a && l != b :: Ws(r, l) == Ws(watchers, l)
  {
  }

  lemma OldEntries(cs: seq<Stored>, st: Stored, l: Lit, ws: seq<Watch>)
    requires ListOk(cs, l, ws)
    ensures ListOk(cs + [st], l, ws) && forall w | w in ws :: w.clause < |cs|
  {
    forall w | w in ws ensures WatchOk(cs + [st], l, w) && w.clause < |cs| {
      assert WatchOk(cs, l, w);
    }
  }

  lemma AppendEntry(cs: seq<Stored>, l: Lit, ws: seq<Watch>, w: Watch)
    requires ListOk(cs, l, ws) && WatchOk(cs, l, w) && forall x | x in ws :: x.clause != w.clause
    ensures ListOk(cs, l, ws + [w])
  {
    hide WatchOk;
  }

  lemma MoreOriginal(orig: set<Clause>, orig': set<Clause>, s: set<Lit>, cs: seq<Stored>)
    requires orig <= orig' && Implied(orig, {}, s) && StoreSound(orig, cs)
    ensures Implied(orig', {}, s) && StoreSound(orig', cs) && (Unsat(orig, {}) ==> Unsat(orig', {}))
  {
    assert forall m: Assignment :: Sat(m, orig') ==> Sat(m, orig);
    hide Sat, AllTrue, SatClause;
  }

  lemma SameEntails(orig: set<Clause>, c: Clause, d: Clause)
    requires Entails(orig, c) && forall l | l in c :: l in d
    ensures Entails(orig, d)
  {
  }

  lemma OriginalEntails(orig: set<Clause>, c: Clause, simplified: Clause)
    requires c in orig && SameSet(simplified, c)
    ensures Entails(orig, simplified)
  {
    assert Entails(orig, c);
    SameEntails(orig, c, simplified);
  }

  lemma SimplifiedFalse(c: Clause, simplified: Clause, vals: set<Lit>)
    requires SameSet(simplified, c) && !Trivial(c, vals)
    ensures !HasTrue(simplified, vals) && forall l | l in simplified :: l in c
  {
  }

  lemma SameNegs(c: Clause, d: Clause)
    requires SameSet(d, c)
    ensures Negs(c) == Negs(d)
  {
  }

  lemma TrivialEntails(orig: set<Clause>, c: Clause, vals: set<Lit>)
    requires Trivial(c, vals) && Implied(orig, {}, vals)
    ensures Entails(orig, c)
  {
    forall m: Assignment | Sat(m, orig) ensures SatClause(m, c) {
      assert AllTrue(m, {});
      if HasTrue(c, vals) {
        var l :| l in c && l in vals;
        assert True(m, l);
      } else {
        var l :| l in c && Neg(l) in c;
        assert True(m, l) || True(m, Neg(l));
      }
    }
  }

  // ----- deleting -----

  function Garbage(cs: seq<Stored>, i: nat): (r: seq<Stored>)
    requires i < |cs|
  {
    cs[i := cs[i].(live := false)]
  }

  lemma GarbageStructure(orig: set<Clause>, cs: seq<Stored>, watchers: Watchers, s: set<Lit>, i: nat)
    requires StoreSound(orig, cs) && Structure(cs, watchers, s, s, s) && i < |cs|
    ensures StoreSound(orig, Garbage(cs, i)) && Structure(Garbage(cs, i), watchers, s, s, s)
  {
    var cs' := Garbage(cs, i);
    hide Entails;
    assert forall k | 0 <= k < |cs| :: cs'[k].lits == cs[k].lits && (cs'[k].live ==> cs[k].live);
    forall l: Lit ensures ListOk(cs', l, Ws(watchers, l)) {
      assert ListOk(cs, l, Ws(watchers, l));
      forall w | w in Ws(watchers, l) ensures WatchOk(cs', l, w) {
        assert WatchOk(cs, l, w);
      }
    }
    hide WatchesOk, HasTrue;
    assert forall k: nat | LiveAt(cs', k) :: LiveAt(cs, k);
  }

  lemma UnlinkTable(nonces: seq<nat>, cs: seq<Stored>, table: Table, b: nat, pos: nat)
    requires |nonces| > 0 && AllKeyed(nonces, cs) && Filed(cs, table, LiveIds(cs)) && b < |table| && pos < |table[b]|
    ensures var i := table[b][pos];
            && LiveAt(cs, i) && AllKeyed(nonces, Garbage(cs, i)) && LiveIds(Garbage(cs, i)) == LiveIds(cs) - {i}
            && Filed(Garbage(cs, i), table[b := RemoveAt(table[b], pos)], LiveIds(Garbage(cs, i)))
            && |LiveIds(Garbage(cs, i))| == |LiveIds(cs)| - 1
  {
    hide Hash, RemoveAt;
    FiledRemove(cs, table, LiveIds(cs), b, pos);
    hide Filed;
    var i := table[b][pos];
    var cs' := Garbage(cs, i);
    forall k | 0 <= k < |cs'| ensures Keyed(nonces, cs'[k]) {
      assert Keyed(nonces, cs[k]);
    }
    assert LiveIds(cs') == LiveIds(cs) - {i};
    FiledSame(cs, cs', table[b := RemoveAt(table[b], pos)], LiveIds(cs) - {i});
  }

  lemma FiledLive(cs: seq<Stored>, table: Table, b: nat, pos: nat)
    requires Filed(cs, table, LiveIds(cs)) && b < |table| && pos < |table[b]|
    ensures LiveAt(cs, table[b][pos])
  {
    assert FiledIn(cs, table, LiveIds(cs), b);
    assert table[b][pos] in table[b];
  }

  lemma RemoveSize(s: seq<nat>, pos: nat)
    requires pos < |s|
    ensures |RemoveAt(s, pos)| == |s| - 1
  {
  }

  lemma StoreOkOf(cs: seq<Stored>, watchers: Watchers, s: set<Lit>)
    requires Structure(cs, watchers, s, s, s)
    ensures StoreOk(cs)
  {
  }

  lemma SameSetAll(cs: seq<Stored>, a: Clause, b: Clause)
    requires SameSet(a, b)
    ensures forall i: nat | LiveAt(cs, i) :: SameSet(cs[i].lits, a) <==> SameSet(cs[i].lits, b)
  {
  }

  /** Only satisfied clauses were dropped. */
  ghost predicate Collected(cs: seq<Stored>, cs': seq<Stored>, s: set<Lit>) {
    && |cs'| == |cs|
    && forall i: nat | i < |cs| :: cs'[i] == cs[i] || (cs'[i] == cs[i].(live := false) && HasTrue(cs[i].lits, s))
  }

  /** No clause of the chain is satisfied. */
  ghost predicate RowClean(cs: seq<Stored>, row: seq<nat>, s: set<Lit>) {
    forall k | 0 <= k < |row| :: row[k] < |cs| && !HasTrue(cs[row[k]].lits, s)
  }

  lemma RowStart(cs: seq<Stored>, row: seq<nat>, s: set<Lit>)
    ensures RowClean(cs, row[..0], s)
  {
  }

  lemma RowNext(cs: seq<Stored>, row: seq<nat>, pos: nat, s: set<Lit>)
    requires pos < |row| && RowClean(cs, row[..pos], s) && row[pos] < |cs| && !HasTrue(cs[row[pos]].lits, s)
    ensures RowClean(cs, row[..pos + 1], s)
  {
    hide HasTrue;
    assert row[..pos + 1] == row[..pos] + [row[pos]];
  }

  lemma RowGarbage(cs: seq<Stored>, id: nat, row: seq<nat>, s: set<Lit>)
    requires id < |cs| && RowClean(cs, row, s)
    ensures RowClean(Garbage(cs, id), row, s)
  {
    hide HasTrue;
  }

  lemma RowsGarbage(cs: seq<Stored>, id: nat, rows: seq<seq<nat>>, s: set<Lit>)
    requires id < |cs| && forall x | 0 <= x < |rows| :: RowClean(cs, rows[x], s)
    ensures forall x | 0 <= x < |rows| :: RowClean(Garbage(cs, id), rows[x], s)
  {
    hide RowClean;
    forall x | 0 <= x < |rows| ensures RowClean(Garbage(cs, id), rows[x], s) {
      RowGarbage(cs, id, rows[x], s);
    }
  }

  lemma RowRemove(cs: seq<Stored>, id: nat, row: seq<nat>, row': seq<nat>, pos: nat, s: set<Lit>)
    requires id < |cs| && pos < |row| && row' == RemoveAt(row, pos) && RowClean(cs, row[..pos], s)
    ensures RowClean(Garbage(cs, id), row'[..pos], s)
  {
    assert row'[..pos] == row[..pos];
    RowGarbage(cs, id, row[..pos], s);
  }

  /** Every live clause is in some chain. */
  lemma EveryRow(cs: seq<Stored>, table: Table, s: set<Lit>)
    requires Filed(cs, table, LiveIds(cs)) && forall x | 0 <= x < |table| :: RowClean(cs, table[x], s)
    ensures forall i: nat | LiveAt(cs, i) :: !HasTrue(cs[i].lits, s)
  {
    hide Bucket, HasTrue;
    forall i: nat | LiveAt(cs, i) ensures !HasTrue(cs[i].lits, s) {
      assert i in LiveIds(cs);
      var b := Bucket(cs[i].hash, |table|);
      assert FiledIn(cs, table, LiveIds(cs), b);
      assert i in table[b];
      assert RowClean(cs, table[b], s);
    }
  }

  lemma CollectedStart(cs: seq<Stored>, s: set<Lit>)
    ensures Collected(cs, cs, s)
  {
  }

  lemma CollectedTransitive(a: seq<Stored>, b: seq<Stored>, c: seq<Stored>, s: set<Lit>)
    requires Collected(a, b, s) && Collected(b, c, s)
    ensures Collected(a, c, s)
  {
    hide HasTrue;
    assert forall i: nat | i < |a| :: b[i] == a[i] || b[i] == a[i].(live := false);
  }

  lemma CollectedEnd(cs: seq<Stored>, cs': seq<Stored>, s: set<Lit>)
    requires Collected(cs, cs', s) && forall i: nat | LiveAt(cs', i) :: !HasTrue(cs'[i].lits, s)
    ensures forall i: nat :: LiveAt(cs', i) <==> LiveAt(cs, i) && !HasTrue(cs[i].lits, s)
    ensures forall i: nat | LiveAt(cs', i) :: LiveAt(cs, i) && cs'[i] == cs[i]
    ensures Swept(StockOf(cs), StockOf(cs'), s)
  {
    hide HasTrue, Satisfied;
    forall i: nat ensures LiveAt(cs', i) <==> LiveAt(cs, i) && !HasTrue(cs[i].lits, s) {
      assert i < |cs| ==> cs'[i] == cs[i] || (cs'[i] == cs[i].(live := false) && HasTrue(cs[i].lits, s));
    }
    forall i | 0 <= i < |cs| ensures cs'[i] == cs[i].(live := cs[i].live && !Satisfied(ToSet(cs[i].lits), s)) {
      SatisfiedIff(cs[i].lits, s);
      assert LiveAt(cs', i) <==> LiveAt(cs, i) && !HasTrue(cs[i].lits, s);
    }
    SweptStock(cs, cs', s);
  }

  lemma SatisfiedIff(c: Clause, s: set<Lit>)
    ensures Satisfied(ToSet(c), s) <==> HasTrue(c, s)
  {
    assert forall l :: l in ToSet(c) <==> l in c;
  }

  lemma CollectedStep(cs: seq<Stored>, cs': seq<Stored>, s: set<Lit>, i: nat)
    requires Collected(cs, cs', s) && i < |cs'| && HasTrue(cs'[i].lits, s)
    ensures Collected(cs, Garbage(cs', i), s)
  {
  }

  /** The entries of live clauses. */
  function LiveEntries(cs: seq<Stored>, ws: seq<Watch>): (r: seq<Watch>)
    ensures forall w :: w in r <==> w in ws && LiveAt(cs, w.clause)
  {
    if ws == [] then []
    else
      var n := |ws| - 1;
      assert ws == ws[..n] + [ws[n]];
      LiveEntries(cs, ws[..n]) + if LiveAt(cs, ws[n].clause) then [ws[n]] else []
  }

  function Flushed(cs: seq<Stored>, watchers: Watchers): (r: Watchers) {
    map l | l in watchers :: LiveEntries(cs, watchers[l])
  }

  lemma {:induction false} LiveEntriesDistinct(cs: seq<Stored>, ws: seq<Watch>)
    requires DistinctIds(ws)
    ensures DistinctIds(LiveEntries(cs, ws))
  {
    if ws != [] {
      var n := |ws| - 1;
      LiveEntriesDistinct(cs, ws[..n]);
      var r := LiveEntries(cs, ws[..n]);
      forall k | 0 <= k < |r| ensures r[k].clause != ws[n].clause {
        assert r[k] in ws[..n];
        var j :| 0 <= j < n && ws[j] == r[k];
      }
    }
  }

  lemma FlushStructure(cs: seq<Stored>, watchers: Watchers, s: set<Lit>)
    requires Structure(cs, watchers, s, s, s)
    ensures Structure(cs, Flushed(cs, watchers), s, s, s)
  {
    var watchers' := Flushed(cs, watchers);
    hide WatchInv, StoreOk, Watched;
    forall l: Lit ensures Ws(watchers', l) == LiveEntries(cs, Ws(watchers, l)) {
    }
    hide LiveEntries, Flushed, Ws;
    forall l: Lit ensures ListOk(cs, l, Ws(watchers', l)) {
      assert ListOk(cs, l, Ws(watchers, l));
      LiveEntriesDistinct(cs, Ws(watchers, l));
    }
    hide ListOk;
    forall i: nat, l: Lit | LiveAt(cs, i) && Watched(cs[i].lits, l) ensures Mentions(Ws(watchers', l), i) {
      var w :| w in Ws(watchers, l) && w.clause == i;
      assert w in Ws(watchers', l);
    }
  }

  // ----- a whole proof -----

  datatype Op = Original(c: Clause) | Derived(c: Clause) | Delete(c: Clause)

  ghost function OriginalsOf(ops: seq<Op>): (r: set<Clause>) {
    set k | 0 <= k < |ops| && ops[k].Original? :: ops[k].c
  }

  /** What is added and not deleted, if every operation succeeds. */
  ghost function ActiveOf(ops: seq<Op>): (r: Stock) {
    if ops == [] then multiset{}
    else
      var k := |ops| - 1;
      var r := ActiveOf(ops[..k]);
      if ops[k].Delete? then r - multiset{ToSet(ops[k].c)} else r + multiset{ToSet(ops[k].c)}
  }

  /** Naive propagation confirms the derived clause; the deleted clause is there. */
  ghost predicate Justified(before: Stock, op: Op) {
    match op
    case Original(_) => true
    case Derived(c) => Confirmed(before, c)
    case Delete(c) => ToSet(c) in before
  }

  lemma OpsNone(ops: seq<Op>)
    ensures OriginalsOf(ops[..0]) == {} && ActiveOf(ops[..0]) == multiset{}
  {
  }

  lemma OpsNext(ops: seq<Op>, k: nat)
    requires k < |ops|
    ensures OriginalsOf(ops[..k + 1]) == if ops[k].Original? then OriginalsOf(ops[..k]) + {ops[k].c} else OriginalsOf(ops[..k])
    ensures var r := ActiveOf(ops[..k]); var s := multiset{ToSet(ops[k].c)};
            ActiveOf(ops[..k + 1]) == if ops[k].Delete? then r - s else r + s
  {
    assert ops[..k + 1] == ops[..k] + [ops[k]];
    assert ops[..k + 1][..k] == ops[..k];
    hide ActiveOf;
    forall c ensures c in OriginalsOf(ops[..k + 1]) <==> c in OriginalsOf(ops[..k]) || (ops[k].Original? && c == ops[k].c) {
      if c in OriginalsOf(ops[..k]) {
        var j :| 0 <= j < k && ops[j].Original? && ops[j].c == c;
        assert ops[..k + 1][j] == ops[j];
      }
      if ops[k].Original? && c == ops[k].c {
        assert ops[..k + 1][k] == ops[k];
      }
    }
  }

  lemma FollowingValid(ck: Checker)
    requires ck.Following()
    ensures ck.Valid()
  {
  }

  /** One operation; the answer is whether the checker goes on. */
  method Perform(ck: Checker, op: Op) returns (ok: bool)
    requires ck.Following()
    modifies ck
    ensures ck.Following() && ck.original == old(ck.original) + (if op.Original? then {op.c} else {})
    ensures ok && op.Derived? ==> Entails(old(ck.original), op.c)
    ensures Justified(old(ck.active), op) ==> ok
    ensures ok ==> ck.active == if op.Delete? then old(ck.active) - multiset{ToSet(op.c)} else old(ck.active) + multiset{ToSet(op.c)}
  {
    hide Confirmed, Entails, Covers, Checker.Valid, Checker.Following, Changed, TakenOut, Trivial, StockOf, SameSet, SameStore, Stuck, NaiveConflict, LiveClauses;
    FollowingValid(ck);
    match op
    case Original(c) =>
      ck.AddOriginalClause(c);
      ok := true;
    case Derived(c) =>
      ok := ck.AddDerivedClause(c);
    case Delete(c) =>
      if !ck.inconsistent && !Trivial(c, ck.vals) && |ck.table| == 0 {
        ck.Absent(c);
        return false;
      }
      ok := ck.DeleteClause(c);
  }

  /**
   A proof from the first operation on: every derived clause that is accepted follows from the
   original clauses before it, and the checker goes on past every operation that is justified.
   */
  method RunProof(nonces: seq<nat>, ops: seq<Op>) returns (n: nat)
    requires |nonces| > 0
    ensures n <= |ops| && forall k | 0 <= k < n && ops[k].Derived? :: Entails(OriginalsOf(ops[..k]), ops[k].c)
    ensures n < |ops| ==> !Justified(ActiveOf(ops[..n]), ops[n])
  {
    hide Justified, Entails, OriginalsOf, ActiveOf, Covers, Checker.Valid;
    OpsNone(ops);
    var ck := new Checker(nonces);
    n := 0;
    while n < |ops|
      invariant n <= |ops| && fresh(ck) && ck.Following()
      invariant ck.original == OriginalsOf(ops[..n]) && ck.active == ActiveOf(ops[..n])
      invariant forall k | 0 <= k < n && ops[k].Derived? :: Entails(OriginalsOf(ops[..k]), ops[k].c)
    {
      OpsNext(ops, n);
      var ok := Perform(ck, ops[n]);
      if !ok {
        return;
      }
      n := n + 1;
    }
  }
}
