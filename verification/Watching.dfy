/**
 Two watched literals with blocking literals, as the DRUP checker keeps them:
 stored clauses, watch lists, and what their invariants say about unit
 propagation.
 */
module Watching {
  import opened Cnf

  /** A stored clause; `live` stands for a size that is not zero. */
  datatype Stored = Stored(lits: Clause, hash: nat, live: bool)

  datatype Watch = Watch(blit: Lit, size: nat, clause: nat)

  type Watchers = map<Lit, seq<Watch>>

  function Ws(watchers: Watchers, l: Lit): (r: seq<Watch>) {
    if l in watchers then watchers[l] else []
  }

  predicate LiveAt(cs: seq<Stored>, i: nat) {
    i < |cs| && cs[i].live
  }

  /** All literals are false. */
  predicate Falsified(c: Clause, s: set<Lit>) {
    forall l | l in c :: Neg(l) in s
  }

  /** All literals but l are false. */
  predicate UnitUnder(c: Clause, s: set<Lit>, l: Lit) {
    l in c && forall o | o in c && o != l :: Neg(o) in s
  }

  /** The first two literals watch a clause. */
  predicate Watched(c: Clause, l: Lit) {
    |c| >= 2 && (c[0] == l || c[1] == l)
  }

  ghost predicate StoreOk(cs: seq<Stored>) {
    forall i | 0 <= i < |cs| :: |cs[i].lits| >= 2 && Distinct(cs[i].lits) && Consistent(cs[i].lits)
  }

  ghost predicate WatchOk(cs: seq<Stored>, l: Lit, w: Watch) {
    && w.clause < |cs|
    && var c := cs[w.clause];
    && w.size == |c.lits| && l in c.lits && w.blit in c.lits && w.blit != l
    && (c.live ==> Watched(c.lits, l))
  }

  /** No clause is twice on a list. */
  ghost predicate DistinctIds(ws: seq<Watch>) {
    forall j, k | 0 <= j < k < |ws| :: ws[j].clause != ws[k].clause
  }

  ghost predicate ListOk(cs: seq<Stored>, l: Lit, ws: seq<Watch>) {
    DistinctIds(ws) && forall w | w in ws :: WatchOk(cs, l, w)
  }

  ghost predicate WatchesOk(cs: seq<Stored>, watchers: Watchers) {
    forall l: Lit :: ListOk(cs, l, Ws(watchers, l))
  }

  predicate Mentions(ws: seq<Watch>, i: nat) {
    exists w | w in ws :: w.clause == i
  }

  /** Every live clause is on the lists of its watches. */
  ghost predicate AllListed(cs: seq<Stored>, watchers: Watchers) {
    forall i: nat, l: Lit | LiveAt(cs, i) && Watched(cs[i].lits, l) :: Mentions(Ws(watchers, l), i)
  }

  /** A clause with a false watch among `p` has a true literal in s. */
  ghost predicate WatchInv(cs: seq<Stored>, p: set<Lit>, s: set<Lit>) {
    forall i: nat, l: Lit | LiveAt(cs, i) && Watched(cs[i].lits, l) && Neg(l) in p :: HasTrue(cs[i].lits, s)
  }

  /** The same for the one literal that is being propagated, but for clauses still on the list. */
  ghost predicate Todo(cs: seq<Stored>, np: Lit, s: set<Lit>, rest: seq<Watch>) {
    forall i: nat | LiveAt(cs, i) && Watched(cs[i].lits, np) && !Mentions(rest, i) :: HasTrue(cs[i].lits, s)
  }

  /** The store, the lists and both invariants: of what was propagated, and of the root level. */
  ghost predicate Structure(cs: seq<Stored>, watchers: Watchers, p: set<Lit>, s: set<Lit>, base: set<Lit>) {
    && StoreOk(cs) && WatchesOk(cs, watchers) && AllListed(cs, watchers)
    && WatchInv(cs, p, s) && WatchInv(cs, base, base)
  }

  // ----- what the invariants are for -----

  ghost predicate ConsistentSet(s: set<Lit>) {
    forall l | l in s :: Neg(l) !in s
  }

  /** When everything is propagated, no live clause is falsified or unit. */
  lemma Quiescent(cs: seq<Stored>, s: set<Lit>, i: nat)
    requires StoreOk(cs) && WatchInv(cs, s, s) && ConsistentSet(s) && LiveAt(cs, i)
    ensures !Falsified(cs[i].lits, s)
    ensures forall l | UnitUnder(cs[i].lits, s, l) :: l in s
  {
    var c := cs[i].lits;
    if !HasTrue(c, s) {
      assert Watched(c, c[0]) && Watched(c, c[1]) && c[0] != c[1];
      assert Neg(c[0]) !in s && Neg(c[1]) !in s;
    } else {
      var t :| t in c && t in s;
      assert Neg(t) !in s;
    }
  }

  /** Naive unit propagation in rounds. */
  ghost function Step(f: set<Clause>, s: set<Lit>): (r: set<Lit>) {
    s + set c, l | c in f && l in c && UnitUnder(c, s, l) :: l
  }

  ghost function Rounds(f: set<Clause>, s: set<Lit>, n: nat): (r: set<Lit>) {
    if n == 0 then s else Step(f, Rounds(f, s, n - 1))
  }

  ghost predicate NaiveConflict(f: set<Clause>, s: set<Lit>) {
    exists n: nat, c | c in f :: Falsified(c, Rounds(f, s, n))
  }

  ghost function LiveClauses(cs: seq<Stored>): (f: set<Clause>) {
    set i | 0 <= i < |cs| && LiveAt(cs, i) :: cs[i].lits
  }

  /** Whatever naive propagation derives, watched propagation has assigned. */
  lemma {:induction false} RoundsWithin(cs: seq<Stored>, s0: set<Lit>, s: set<Lit>, n: nat)
    requires StoreOk(cs) && WatchInv(cs, s, s) && ConsistentSet(s) && s0 <= s
    ensures Rounds(LiveClauses(cs), s0, n) <= s
  {
    if n > 0 {
      RoundsWithin(cs, s0, s, n - 1);
      var r := Rounds(LiveClauses(cs), s0, n - 1);
      forall c, l | c in LiveClauses(cs) && l in c && UnitUnder(c, r, l) ensures l in s {
        var i :| 0 <= i < |cs| && LiveAt(cs, i) && cs[i].lits == c;
        Quiescent(cs, s, i);
        assert UnitUnder(c, s, l);
      }
    }
  }

  /** If watched propagation ends without a conflict, so does naive propagation. */
  lemma NoNaiveConflict(cs: seq<Stored>, s0: set<Lit>, s: set<Lit>)
    requires StoreOk(cs) && WatchInv(cs, s, s) && ConsistentSet(s) && s0 <= s
    ensures !NaiveConflict(LiveClauses(cs), s0)
  {
    hide Rounds, WatchInv, StoreOk, ConsistentSet;
    forall n: nat, c | c in LiveClauses(cs) ensures !Falsified(c, Rounds(LiveClauses(cs), s0, n)) {
      RoundsWithin(cs, s0, s, n);
      var i :| 0 <= i < |cs| && LiveAt(cs, i) && cs[i].lits == c;
      Quiescent(cs, s, i);
      var l :| l in c && Neg(l) !in s;
    }
  }

  // ----- changes -----

  lemma HasTrueMore(c: Clause, s: set<Lit>, s': set<Lit>)
    requires HasTrue(c, s) && s <= s'
    ensures HasTrue(c, s')
  {
  }

  /** More true literals. */
  lemma MoreTrue(cs: seq<Stored>, watchers: Watchers, p: set<Lit>, s: set<Lit>, s': set<Lit>, base: set<Lit>)
    requires Structure(cs, watchers, p, s, base) && s <= s'
    ensures Structure(cs, watchers, p, s', base)
  {
    hide StoreOk, WatchesOk, AllListed, HasTrue;
    forall i: nat, l: Lit | LiveAt(cs, i) && Watched(cs[i].lits, l) && Neg(l) in p ensures HasTrue(cs[i].lits, s') {
      HasTrueMore(cs[i].lits, s, s');
    }
  }

  lemma MoreTrueTodo(cs: seq<Stored>, np: Lit, s: set<Lit>, s': set<Lit>, rest: seq<Watch>)
    requires Todo(cs, np, s, rest) && s <= s'
    ensures Todo(cs, np, s', rest)
  {
    hide HasTrue;
    forall i: nat | LiveAt(cs, i) && Watched(cs[i].lits, np) && !Mentions(rest, i) ensures HasTrue(cs[i].lits, s') {
      HasTrueMore(cs[i].lits, s, s');
    }
  }

  /** The literals of clause c are reordered. */
  ghost predicate Reordered(cs: seq<Stored>, cs': seq<Stored>, c: nat) {
    && |cs'| == |cs| && c < |cs| && cs' == cs[c := cs[c].(lits := cs'[c].lits)]
    && multiset(cs'[c].lits) == multiset(cs[c].lits)
  }

  lemma SameMembers(a: Clause, b: Clause)
    requires multiset(a) == multiset(b)
    ensures |a| == |b| && forall l :: l in a <==> l in b
  {
    assert |a| == |multiset(a)| == |b|;
    forall l ensures l in a <==> l in b {
      assert l in multiset(a) <==> l in multiset(b);
    }
  }

  lemma ReorderedStore(cs: seq<Stored>, cs': seq<Stored>, c: nat)
    requires StoreOk(cs) && Reordered(cs, cs', c)
    ensures StoreOk(cs')
  {
    DistinctPermutation(cs[c].lits, cs'[c].lits);
    SameMembers(cs[c].lits, cs'[c].lits);
    forall i | 0 <= i < |cs'| ensures |cs'[i].lits| >= 2 && Distinct(cs'[i].lits) && Consistent(cs'[i].lits) {
      assert i != c ==> cs'[i] == cs[i];
    }
  }

  /** Only the order of the two watches changes, or nothing at all. */
  lemma ReorderedSame(cs: seq<Stored>, cs': seq<Stored>, watchers: Watchers, c: nat, p: set<Lit>, s: set<Lit>, base: set<Lit>)
    requires Structure(cs, watchers, p, s, base) && Reordered(cs, cs', c)
    requires forall l :: Watched(cs'[c].lits, l) <==> Watched(cs[c].lits, l)
    ensures Structure(cs', watchers, p, s, base)
  {
    ReorderedStore(cs, cs', c);
    SameMembers(cs[c].lits, cs'[c].lits);
    assert forall i: nat | i < |cs| && i != c :: cs'[i] == cs[i];
    hide StoreOk, Watched, Reordered;
    hide WatchInv;
    forall l: Lit ensures ListOk(cs', l, Ws(watchers, l)) {
      assert ListOk(cs, l, Ws(watchers, l));
      forall w | w in Ws(watchers, l) ensures WatchOk(cs', l, w) {
        assert WatchOk(cs, l, w);
      }
    }
    hide WatchesOk;
    forall i: nat, l: Lit | LiveAt(cs', i) && Watched(cs'[i].lits, l) ensures Mentions(Ws(watchers, l), i) {
      assert LiveAt(cs, i) && Watched(cs[i].lits, l);
    }
    ReorderedInv(cs, cs', c, p, s);
    ReorderedInv(cs, cs', c, base, base);
  }

  lemma ReorderedInv(cs: seq<Stored>, cs': seq<Stored>, c: nat, p: set<Lit>, s: set<Lit>)
    requires WatchInv(cs, p, s) && |cs'| == |cs| && c < |cs| && forall i: nat | i < |cs| && i != c :: cs'[i] == cs[i]
    requires cs'[c].live == cs[c].live && forall l :: l in cs'[c].lits <==> l in cs[c].lits
    requires forall l | Watched(cs'[c].lits, l) :: Watched(cs[c].lits, l) || Neg(l) !in p
    ensures WatchInv(cs', p, s)
  {
    hide Watched;
    forall i: nat, l: Lit | LiveAt(cs', i) && Watched(cs'[i].lits, l) && Neg(l) in p ensures HasTrue(cs'[i].lits, s) {
      assert LiveAt(cs, i) && Watched(cs[i].lits, l);
      assert HasTrue(cs[i].lits, s);
    }
  }

  /** The watch np of the live clause c is replaced by r. */
  ghost predicate Moved(cs: seq<Stored>, cs': seq<Stored>, watchers: Watchers, watchers': Watchers,
                        np: Lit, r: Lit, o: Lit, keep: seq<Watch>, w: Watch, rest: seq<Watch>) {
    && LiveAt(cs, w.clause) && Reordered(cs, cs', w.clause) && r != np && o != r && o != np && r in cs[w.clause].lits
    && (forall l :: Watched(cs[w.clause].lits, l) <==> l == o || l == np)
    && (forall l :: Watched(cs'[w.clause].lits, l) <==> l == o || l == r)
    && Ws(watchers, np) == keep + [w] + rest
    && watchers' == watchers[np := keep + rest][r := Ws(watchers, r) + [Watch(np, w.size, w.clause)]]
  }

  lemma DistinctIdsWithout(keep: seq<Watch>, w: Watch, rest: seq<Watch>)
    requires DistinctIds(keep + [w] + rest)
    ensures DistinctIds(keep + rest) && forall x | x in keep + rest :: x.clause != w.clause
  {
    var a := keep + [w] + rest;
    var n := |keep|;
    assert a[n] == w;
    forall k | 0 <= k < |keep + rest| ensures (keep + rest)[k] == a[if k < n then k else k + 1] {
    }
  }

  lemma WatchOkKept(cs: seq<Stored>, cs': seq<Stored>, l: Lit, x: Watch, c: nat)
    requires WatchOk(cs, l, x) && Reordered(cs, cs', c)
    requires x.clause == c ==> (cs[c].live ==> Watched(cs'[c].lits, l))
    ensures WatchOk(cs', l, x)
  {
    SameMembers(cs[c].lits, cs'[c].lits);
    assert x.clause != c ==> cs'[x.clause] == cs[x.clause];
  }

  lemma MovedList(cs: seq<Stored>, cs': seq<Stored>, watchers: Watchers, watchers': Watchers,
                  np: Lit, r: Lit, o: Lit, keep: seq<Watch>, w: Watch, rest: seq<Watch>, l: Lit)
    requires StoreOk(cs) && WatchesOk(cs, watchers) && Moved(cs, cs', watchers, watchers', np, r, o, keep, w, rest)
    ensures ListOk(cs', l, Ws(watchers', l))
  {
    var c := w.clause;
    var ws, ws' := Ws(watchers, l), Ws(watchers', l);
    assert ListOk(cs, l, ws) && ListOk(cs, np, Ws(watchers, np));
    assert w in Ws(watchers, np);
    hide Watched, WatchesOk;
    if l == np {
      DistinctIdsWithout(keep, w, rest);
      forall x | x in ws' ensures WatchOk(cs', l, x) {
        assert x in ws;
        WatchOkKept(cs, cs', l, x, c);
      }
    } else {
      forall x | x in ws && (l == r ==> x.clause != c) ensures WatchOk(cs', l, x) {
        if x.clause == c {
          assert WatchOk(cs, l, x);
        }
        WatchOkKept(cs, cs', l, x, c);
      }
      if l == r {
        forall x | x in ws ensures x.clause != c {
          assert WatchOk(cs, l, x);
        }
        SameMembers(cs[c].lits, cs'[c].lits);
        assert WatchOk(cs, np, w);
        assert WatchOk(cs', r, Watch(np, w.size, c));
      }
    }
  }

  lemma MovedListed(cs: seq<Stored>, cs': seq<Stored>, watchers: Watchers, watchers': Watchers,
                    np: Lit, r: Lit, o: Lit, keep: seq<Watch>, w: Watch, rest: seq<Watch>)
    requires AllListed(cs, watchers) && Moved(cs, cs', watchers, watchers', np, r, o, keep, w, rest)
    ensures AllListed(cs', watchers')
  {
    var c := w.clause;
    hide Watched;
    forall i: nat, l: Lit | LiveAt(cs', i) && Watched(cs'[i].lits, l) ensures Mentions(Ws(watchers', l), i) {
      if i == c && l == r {
        assert Watch(np, w.size, c) in Ws(watchers', r);
      } else {
        assert LiveAt(cs, i) && Watched(cs[i].lits, l);
        var x :| x in Ws(watchers, l) && x.clause == i;
        assert x in Ws(watchers', l);
      }
    }
  }

  lemma MovedStructure(cs: seq<Stored>, cs': seq<Stored>, watchers: Watchers, watchers': Watchers,
                       np: Lit, r: Lit, o: Lit, keep: seq<Watch>, w: Watch, rest: seq<Watch>, p: set<Lit>, s: set<Lit>, base: set<Lit>)
    requires Structure(cs, watchers, p, s, base) && Moved(cs, cs', watchers, watchers', np, r, o, keep, w, rest)
    requires p <= s && base <= s && Neg(r) !in s
    ensures Structure(cs', watchers', p, s, base)
  {
    var c := w.clause;
    ReorderedStore(cs, cs', c);
    SameMembers(cs[c].lits, cs'[c].lits);
    assert forall i: nat | i < |cs| && i != c :: cs'[i] == cs[i];
    ReorderedInv(cs, cs', c, p, s);
    ReorderedInv(cs, cs', c, base, base);
    MovedListed(cs, cs', watchers, watchers', np, r, o, keep, w, rest);
    hide StoreOk, Moved, WatchInv, AllListed, ListOk;
    forall l: Lit ensures ListOk(cs', l, Ws(watchers', l)) {
      MovedList(cs, cs', watchers, watchers', np, r, o, keep, w, rest, l);
    }
  }

  /** The clause w no longer has to be visited: np does not watch it, or it has a true literal, or it is garbage. */
  lemma TodoDone(cs: seq<Stored>, np: Lit, s: set<Lit>, w: Watch, rest: seq<Watch>)
    requires Todo(cs, np, s, [w] + rest)
    requires LiveAt(cs, w.clause) ==> !Watched(cs[w.clause].lits, np) || HasTrue(cs[w.clause].lits, s)
    ensures Todo(cs, np, s, rest)
  {
    hide Watched, HasTrue;
    forall i: nat | LiveAt(cs, i) && Watched(cs[i].lits, np) && !Mentions(rest, i) ensures HasTrue(cs[i].lits, s) {
      if i != w.clause {
        assert !Mentions([w] + rest, i);
      }
    }
  }

  lemma TodoReordered(cs: seq<Stored>, cs': seq<Stored>, c: nat, np: Lit, s: set<Lit>, rest: seq<Watch>)
    requires Todo(cs, np, s, rest) && Reordered(cs, cs', c)
    requires Watched(cs'[c].lits, np) ==> Watched(cs[c].lits, np)
    ensures Todo(cs', np, s, rest)
  {
    SameMembers(cs[c].lits, cs'[c].lits);
    assert forall i: nat | i < |cs| && i != c :: cs'[i] == cs[i];
    hide Watched, Reordered;
    forall i: nat | LiveAt(cs', i) && Watched(cs'[i].lits, np) && !Mentions(rest, i) ensures HasTrue(cs'[i].lits, s) {
      assert LiveAt(cs, i) && Watched(cs[i].lits, np);
      assert HasTrue(cs[i].lits, s);
    }
  }

  /** Before the list of np is traversed. */
  lemma TodoStart(cs: seq<Stored>, watchers: Watchers, np: Lit, s: set<Lit>)
    requires AllListed(cs, watchers)
    ensures Todo(cs, np, s, Ws(watchers, np))
  {
    hide HasTrue, Watched;
  }

  /** After the list of np was traversed. */
  lemma TodoEnd(cs: seq<Stored>, watchers: Watchers, np: Lit, p: set<Lit>, s: set<Lit>, base: set<Lit>)
    requires Structure(cs, watchers, p, s, base) && Todo(cs, np, s, [])
    ensures Structure(cs, watchers, p + {Neg(np)}, s, base)
  {
    hide StoreOk, WatchesOk, AllListed, HasTrue, Watched;
    forall i: nat, l: Lit | LiveAt(cs, i) && Watched(cs[i].lits, l) && Neg(l) in p + {Neg(np)} ensures HasTrue(cs[i].lits, s) {
      if Neg(l) !in p {
        assert l == np;
        assert !Mentions([], i);
      }
    }
  }

  /** A list entry is replaced by one with another blocking literal, or dropped with its garbage clause. */
  lemma KeptEntry(cs: seq<Stored>, watchers: Watchers, np: Lit, keep: seq<Watch>, w: Watch, rest: seq<Watch>, b: Lit, p: set<Lit>, s: set<Lit>, base: set<Lit>)
    requires Structure(cs, watchers, p, s, base) && Ws(watchers, np) == keep + [w] + rest
    requires w.clause < |cs| && b in cs[w.clause].lits && b != np
    ensures Structure(cs, watchers[np := keep + [w.(blit := b)] + rest], p, s, base)
  {
    hide StoreOk, WatchInv, Watched;
    var w' := w.(blit := b);
    var watchers' := watchers[np := keep + [w'] + rest];
    var a, a' := keep + [w] + rest, keep + [w'] + rest;
    assert forall k | 0 <= k < |a| :: a'[k].clause == a[k].clause;
    assert w in Ws(watchers, np);
    forall l: Lit ensures ListOk(cs, l, Ws(watchers', l)) {
      assert ListOk(cs, l, Ws(watchers, l));
      if l == np {
        forall x | x in a' ensures WatchOk(cs, l, x) {
          assert x in a || x == w';
        }
      }
    }
    forall i: nat, l: Lit | LiveAt(cs, i) && Watched(cs[i].lits, l) ensures Mentions(Ws(watchers', l), i) {
      var x :| x in Ws(watchers, l) && x.clause == i;
      if l == np {
        assert x in a' || x == w;
        assert w' in a';
      }
    }
  }

  lemma DroppedEntry(cs: seq<Stored>, watchers: Watchers, np: Lit, keep: seq<Watch>, w: Watch, rest: seq<Watch>, p: set<Lit>, s: set<Lit>, base: set<Lit>)
    requires Structure(cs, watchers, p, s, base) && Ws(watchers, np) == keep + [w] + rest && !LiveAt(cs, w.clause)
    ensures Structure(cs, watchers[np := keep + rest], p, s, base)
  {
    hide StoreOk, WatchInv, Watched;
    var watchers' := watchers[np := keep + rest];
    forall l: Lit ensures ListOk(cs, l, Ws(watchers', l)) {
      assert ListOk(cs, l, Ws(watchers, l));
      if l == np {
        DistinctIdsWithout(keep, w, rest);
      }
    }
    forall i: nat, l: Lit | LiveAt(cs, i) && Watched(cs[i].lits, l) ensures Mentions(Ws(watchers', l), i) {
      var x :| x in Ws(watchers, l) && x.clause == i;
      assert x != w;
      assert x in Ws(watchers', l);
    }
  }
}
