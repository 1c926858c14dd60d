/**
 Propositional clauses and their meaning. A literal of the solver is a non-zero
 integer; here it is a variable with a sign. An assignment is the set of
 variables it makes true.
 */
module Cnf {

  datatype Option<+T> = None | Some(value: T)

  datatype Lit = Lit(v: nat, pos: bool)

  type Clause = seq<Lit>
  type Assignment = set<nat>

  function Neg(l: Lit): (r: Lit) {
    Lit(l.v, !l.pos)
  }

  predicate True(m: Assignment, l: Lit) {
    (l.v in m) == l.pos
  }

  predicate SatClause(m: Assignment, c: Clause) {
    exists l | l in c :: True(m, l)
  }

  predicate Sat(m: Assignment, f: set<Clause>) {
    forall c | c in f :: SatClause(m, c)
  }

  predicate AllTrue(m: Assignment, ls: set<Lit>) {
    forall l | l in ls :: True(m, l)
  }

  /** No assignment satisfies `f` together with the literals `ls`. */
  ghost predicate Unsat(f: set<Clause>, ls: set<Lit>) {
    forall m: Assignment :: !(Sat(m, f) && AllTrue(m, ls))
  }

  ghost predicate Entails(f: set<Clause>, c: Clause) {
    forall m: Assignment :: Sat(m, f) ==> SatClause(m, c)
  }

  /** No literal together with its negation. */
  predicate Consistent(ls: seq<Lit>) {
    forall l | l in ls :: Neg(l) !in ls
  }

  /** Some literal of the clause is among those of s. */
  predicate HasTrue(c: Clause, s: set<Lit>) {
    exists l | l in c :: l in s
  }

  function ToSet<T>(s: seq<T>): (r: set<T>) {
    set x | x in s
  }

  function Negated(ls: seq<Lit>): (r: seq<Lit>)
    ensures |r| == |ls| && forall i | 0 <= i < |ls| :: r[i] == Neg(ls[i])
  {
    seq(|ls|, i requires 0 <= i < |ls| => Neg(ls[i]))
  }

  predicate Distinct<T(==)>(s: seq<T>) {
    forall i, j | 0 <= i < j < |s| :: s[i] != s[j]
  }

  /** How many positions of `ls` hold a true literal. */
  function Count(m: Assignment, ls: seq<Lit>): (n: nat)
    ensures n <= |ls|
  {
    if ls == [] then 0
    else (if True(m, ls[0]) then 1 else 0) + Count(m, ls[1..])
  }

  lemma {:induction false} CountConcat(m: Assignment, a: seq<Lit>, b: seq<Lit>)
    ensures Count(m, a + b) == Count(m, a) + Count(m, b)
  {
    if a == [] {
      assert a + b == b;
    } else {
      assert (a + b)[1..] == a[1..] + b;
      CountConcat(m, a[1..], b);
    }
  }

  function RemoveAt<T>(s: seq<T>, i: nat): (r: seq<T>)
    requires i < |s|
    ensures multiset(r) == multiset(s) - multiset{s[i]}
  {
    assert s == s[..i] + [s[i]] + s[i + 1..];
    s[..i] + s[i + 1..]
  }

  lemma {:induction false} CountRemoveAt(m: Assignment, ls: seq<Lit>, i: nat)
    requires i < |ls|
    ensures Count(m, ls) == Count(m, RemoveAt(ls, i)) + if True(m, ls[i]) then 1 else 0
  {
    assert ls == ls[..i] + ls[i..];
    CountConcat(m, ls[..i], ls[i..]);
    CountConcat(m, ls[..i], ls[i + 1..]);
  }

  /** Counting does not depend on the order of the literals. */
  lemma {:induction false} CountPermutation(m: Assignment, a: seq<Lit>, b: seq<Lit>)
    requires multiset(a) == multiset(b)
    ensures Count(m, a) == Count(m, b)
    decreases |a|
  {
    assert |a| == |multiset(a)| == |b|;
    if a != [] {
      assert a[0] in multiset(b);
      var i :| 0 <= i < |b| && b[i] == a[0];
      CountRemoveAt(m, a, 0);
      CountRemoveAt(m, b, i);
      CountPermutation(m, RemoveAt(a, 0), RemoveAt(b, i));
    }
  }

  lemma {:induction false} CountPositive(m: Assignment, ls: seq<Lit>)
    ensures Count(m, ls) > 0 <==> exists l | l in ls :: True(m, l)
  {
    if ls == [] {
    } else {
      CountPositive(m, ls[1..]);
      assert forall l | l in ls :: l == ls[0] || l in ls[1..];
    }
  }

  lemma {:induction false} CountMonotone(m: Assignment, e: Assignment, ls: seq<Lit>)
    requires forall l | l in ls :: True(m, l) ==> True(e, l)
    ensures Count(m, ls) <= Count(e, ls)
  {
    if ls != [] {
      CountMonotone(m, e, ls[1..]);
    }
  }

  lemma {:induction false} CountNegated(m: Assignment, ls: seq<Lit>)
    ensures Count(m, Negated(ls)) == |ls| - Count(m, ls)
  {
    if ls != [] {
      assert Negated(ls)[1..] == Negated(ls[1..]);
      CountNegated(m, ls[1..]);
    }
  }

  function Vars(f: set<Clause>): (r: set<nat>) {
    set c, l | c in f && l in c :: l.v
  }

  lemma AgreeClause(m: Assignment, e: Assignment, c: Clause)
    requires forall l | l in c :: l.v in m <==> l.v in e
    ensures SatClause(m, c) <==> SatClause(e, c)
  {
  }

  lemma {:induction false} DistinctPermutation<T>(a: seq<T>, b: seq<T>)
    requires multiset(a) == multiset(b) && Distinct(a)
    ensures Distinct(b) && ToSet(a) == ToSet(b)
  {
    forall x ensures x in a <==> x in b {
      assert x in multiset(a) <==> x in multiset(b);
    }
    forall i, j | 0 <= i < j < |b| ensures b[i] != b[j] {
      if b[i] == b[j] {
        assert b == b[..i] + [b[i]] + b[i + 1..j] + [b[j]] + b[j + 1..];
        assert multiset(b)[b[i]] >= 2;
        DistinctOnce(a, b[i]);
      }
    }
  }

  lemma {:induction false} DistinctOnce<T>(s: seq<T>, x: T)
    requires Distinct(s)
    ensures multiset(s)[x] <= 1
  {
    if s != [] {
      DistinctOnce(s[1..], x);
      assert s == [s[0]] + s[1..];
      assert x == s[0] ==> x !in s[1..];
    }
  }

  lemma {:induction false} DistinctSize<T>(s: seq<T>)
    requires Distinct(s)
    ensures |ToSet(s)| == |s|
  {
    if s != [] {
      var n := |s| - 1;
      DistinctSize(s[..n]);
      assert s[n] !in s[..n];
      assert ToSet(s) == ToSet(s[..n]) + {s[n]};
    }
  }

  lemma SplitAt<T>(s: seq<T>, j: nat, front: seq<T>)
    requires j < |s|
    ensures s[j..] == [s[j]] + s[j + 1..] && front + s[j..] == front + [s[j]] + s[j + 1..]
  {
  }
}
