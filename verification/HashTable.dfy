/**
 The clause hash table of the DRUP checker: sorted clauses, hashing, collision
 chains, lookup, doubling and removal.
 */
module HashTable {
  import opened Cnf
  import opened Watching

  // ----- sorting -----

  /** `lit_smaller`: by variable, the negative literal first. */
  predicate Less(a: Lit, b: Lit) {
    a.v < b.v || (a.v == b.v && !a.pos && b.pos)
  }

  predicate Sorted(c: Clause) {
    forall i, j | 0 <= i < j < |c| :: !Less(c[j], c[i])
  }

  predicate StrictlySorted(c: Clause) {
    forall i, j | 0 <= i < j < |c| :: Less(c[i], c[j])
  }

  function Insert(l: Lit, c: Clause): (r: Clause)
    requires Sorted(c)
    ensures Sorted(r) && forall x :: x in r <==> x == l || x in c
  {
    if c == [] || !Less(c[0], l) then [l] + c
    else
      var r := Insert(l, c[1..]);
      assert c == [c[0]] + c[1..];
      assert forall x | x in r :: !Less(x, c[0]);
      [c[0]] + r
  }

  function SortLits(c: Clause): (r: Clause)
    ensures Sorted(r) && forall x :: x in r <==> x in c
  {
    if c == [] then [] else
      assert c == [c[0]] + c[1..];
      Insert(c[0], SortLits(c[1..]))
  }

  ghost predicate SameSet(a: Clause, b: Clause) {
    forall l :: l in a <==> l in b
  }

  /** A set of literals has one strictly sorted sequence. */
  lemma {:induction false} SortedUnique(a: Clause, b: Clause)
    requires StrictlySorted(a) && StrictlySorted(b) && SameSet(a, b)
    ensures a == b
    decreases |a|
  {
    StrictlySortedDistinct(a);
    StrictlySortedDistinct(b);
    SameSetSize(a, b);
    if a != [] {
      assert a[0] in b;
      assert b[0] in a;
      assert a[0] == b[0];
      var x, y := a[1..], b[1..];
      forall l ensures l in x <==> l in y {
        assert l in x <==> l in a && l != a[0] by {
          assert a == [a[0]] + x;
          assert a[0] !in x;
        }
        assert l in y <==> l in b && l != b[0] by {
          assert b == [b[0]] + y;
          assert b[0] !in y;
        }
      }
      SortedUnique(x, y);
      assert a == [a[0]] + x && b == [b[0]] + y;
    }
  }

  lemma StrictlySortedDistinct(c: Clause)
    requires StrictlySorted(c)
    ensures Distinct(c)
  {
  }

  /** Two complementary literals, or a true one. */
  predicate Trivial(c: Clause, vals: set<Lit>) {
    (exists l | l in c :: Neg(l) in c) || HasTrue(c, vals)
  }

  /** `tautological`: sorts, drops duplicates and finds out whether the clause is trivial. */
  method Tautological(c: Clause, vals: set<Lit>) returns (res: bool, simplified: Clause)
    ensures res <==> Trivial(c, vals)
    ensures !res ==> StrictlySorted(simplified) && SameSet(simplified, c) && Consistent(simplified)
  {
    var sorted := SortLits(c);
    simplified := [];
    for i := 0 to |sorted|
      invariant StrictlySorted(simplified) && Consistent(simplified) && !HasTrue(simplified, vals)
      invariant forall l :: l in simplified <==> l in sorted[..i]
      invariant i == 0 ==> simplified == []
      invariant i > 0 ==> simplified != [] && simplified[|simplified| - 1] == sorted[i - 1]
    {
      assert sorted[..i + 1] == sorted[..i] + [sorted[i]];
      var lit := sorted[i];
      assert lit in c;
      if simplified != [] && lit == simplified[|simplified| - 1] {
      } else if simplified != [] && lit == Neg(simplified[|simplified| - 1]) {
        assert Neg(lit) in sorted[..i] && Neg(lit) in sorted;
        return true, simplified;
      } else if lit in vals {
        return true, simplified;
      } else {
        if simplified != [] {
          AppendLit(simplified, lit);
        }
        simplified := simplified + [lit];
      }
    }
    assert sorted[..|sorted|] == sorted;
    res := false;
  }

  /** In sorted order a complementary literal would be the last one. */
  lemma AppendLit(c: Clause, lit: Lit)
    requires StrictlySorted(c) && Consistent(c) && c != [] && !Less(lit, c[|c| - 1])
    requires lit != c[|c| - 1] && lit != Neg(c[|c| - 1])
    ensures StrictlySorted(c + [lit]) && Consistent(c + [lit])
  {
    var prev := c[|c| - 1];
    assert prev.v < lit.v;
    forall i | 0 <= i < |c| ensures c[i].v < lit.v {
      assert i < |c| - 1 ==> Less(c[i], prev);
    }
    forall l | l in c + [lit] ensures Neg(l) !in c + [lit] {
    }
  }

  // ----- hashing -----

  const WORD: nat := 0x1_0000_0000_0000_0000

  function Code(l: Lit): (r: int) {
    if l.pos then l.v else 0 - l.v
  }

  /** `compute_hash` modulo 2^64; each literal is multiplied by one of the nonces in turn. */
  function Hash(nonces: seq<nat>, c: Clause): (r: nat)
    requires |nonces| > 0
    ensures r < WORD
  {
    if c == [] then 0
    else
      var n := |c| - 1;
      (Hash(nonces, c[..n]) + nonces[n % |nonces|] * (Code(c[n]) % WORD)) % WORD
  }

  function Pow2(n: nat): (r: nat)
    ensures r > 0 && (n > 0 ==> r > 1)
  {
    if n == 0 then 1 else 2 * Pow2(n - 1)
  }

  function Xor(a: nat, b: nat): (r: nat)
    decreases a + b
  {
    if a == 0 then b else if b == 0 then a else 2 * Xor(a / 2, b / 2) + (a % 2 + b % 2) % 2
  }

  function Shift(a: nat, n: nat): (r: nat) {
    if n == 0 then a else Shift(a / 2, n - 1)
  }

  function And(a: nat, b: nat): (r: nat)
    ensures r <= b
    decreases a + b
  {
    if a == 0 || b == 0 then 0 else 2 * And(a / 2, b / 2) + if a % 2 == 1 && b % 2 == 1 then 1 else 0
  }

  /** The bits of `a` below the table size. */
  function Mask(a: nat, size: nat): (r: nat)
    requires size > 0
    ensures r < size
  {
    And(a, size - 1)
  }

  predicate PowerOfTwo(size: nat) {
    exists k: nat :: k <= size && size == Pow2(k)
  }

  /** Masking is the remainder for the sizes that a table takes. */
  lemma MaskRemainder(a: nat, size: nat)
    requires PowerOfTwo(size)
    ensures Mask(a, size) == a % size
  {
    var k: nat :| k <= size && size == Pow2(k);
    AndRemainder(a, k);
  }

  lemma {:induction false} AndRemainder(a: nat, k: nat)
    ensures And(a, Pow2(k) - 1) == a % Pow2(k)
  {
    if k > 0 {
      var p := Pow2(k - 1);
      AndRemainder(a / 2, k - 1);
      assert (2 * p - 1) / 2 == p - 1 && (2 * p - 1) % 2 == 1;
      RemainderDouble(a, p);
    }
  }

  lemma RemainderDouble(a: nat, p: nat)
    requires p > 0
    ensures a % (2 * p) == 2 * (a / 2 % p) + a % 2
  {
    var q, s := a / 2 / p, a / 2 % p;
    assert a / 2 == q * p + s;
    assert a == q * (2 * p) + (2 * s + a % 2);
    RemainderUnique(a, 2 * p, q, 2 * s + a % 2);
  }

  lemma RemainderUnique(a: nat, m: nat, q: nat, r: nat)
    requires m > 0 && a == q * m + r && r < m
    ensures a % m == r
  {
    var d := a / m - q;
    assert a == (a / m) * m + a % m;
    assert d * m == r - a % m;
    assert d >= 1 ==> d * m >= m;
    assert d <= -1 ==> d * m <= 0 - m;
  }

  lemma PowerGrows(k: nat)
    ensures k < Pow2(k)
  {
  }

  lemma PowerDoubles(size: nat)
    requires size == 0 || PowerOfTwo(size)
    ensures PowerOfTwo(if size > 0 then 2 * size else 1)
  {
    if size == 0 {
      assert Pow2(0) == 1;
    } else {
      var k: nat :| k <= size && size == Pow2(k);
      assert Pow2(k + 1) == 2 * size;
      PowerGrows(k + 1);
    }
  }

  /** The loop of `reduce_hash`; at shift 0 its test fails for every size but 0. */
  function Mix(res: nat, shift: nat, size: nat): (r: nat)
    requires size > 0
    ensures r < size
    decreases shift
  {
    if Pow2(shift) > size then Mix(Xor(res, Shift(res, shift)), shift / 2, size) else Mask(res, size)
  }

  /** The shift after some rounds of the loop. */
  function ShiftAfter(shift: nat, rounds: nat): (r: nat) {
    if rounds == 0 then shift else ShiftAfter(shift / 2, rounds - 1)
  }

  lemma {:induction false} ShiftsOut(shift: nat, rounds: nat)
    requires shift <= rounds
    ensures ShiftAfter(shift, rounds) == 0
  {
    if rounds > 0 {
      ShiftsOut(shift / 2, rounds - 1);
    }
  }

  /** The loop of `reduce_hash` comes to an end for every table size but 0. */
  lemma ReduceEnds(size: nat)
    ensures (exists rounds: nat :: Pow2(ShiftAfter(32, rounds)) <= size) <==> size > 0
  {
    ShiftsOut(32, 32);
    assert Pow2(ShiftAfter(32, 32)) == 1;
  }

  /** The chain of a hash value. */
  function Bucket(hash: nat, size: nat): (r: nat)
    requires size > 0
    ensures r < size
  {
    Mix(hash, 32, size)
  }

  // ----- the table -----

  type Table = seq<seq<nat>>

  /** Exactly these clauses are in the table, each in its chain. */
  ghost predicate FiledIn(cs: seq<Stored>, table: Table, ids: set<nat>, b: nat)
    requires b < |table|
  {
    && Distinct(table[b])
    && forall i: nat :: i in table[b] <==> i in ids && i < |cs| && Bucket(cs[i].hash, |table|) == b
  }

  ghost predicate Filed(cs: seq<Stored>, table: Table, ids: set<nat>) {
    && (forall i | i in ids :: i < |cs| && |table| > 0)
    && forall b | 0 <= b < |table| :: FiledIn(cs, table, ids, b)
  }

  ghost function LiveIds(cs: seq<Stored>): (r: set<nat>) {
    set i: nat | i < |cs| && cs[i].live
  }

  /** The hash of a stored clause is that of its sorted literals, in whatever order it keeps them. */
  ghost predicate Keyed(nonces: seq<nat>, st: Stored)
    requires |nonces| > 0
  {
    forall k: Clause | StrictlySorted(k) && SameSet(k, st.lits) :: st.hash == Hash(nonces, k)
  }

  ghost predicate AllKeyed(nonces: seq<nat>, cs: seq<Stored>)
    requires |nonces| > 0
  {
    forall i | 0 <= i < |cs| :: Keyed(nonces, cs[i])
  }

  /** A new clause at the head of its chain. */
  lemma FiledPush(cs: seq<Stored>, table: Table, ids: set<nat>, i: nat)
    requires Filed(cs, table, ids) && |table| > 0 && i < |cs| && i !in ids
    ensures var h := Bucket(cs[i].hash, |table|); Filed(cs, table[h := [i] + table[h]], ids + {i})
  {
    var h := Bucket(cs[i].hash, |table|);
    var table' := table[h := [i] + table[h]];
    hide Bucket;
    forall b | 0 <= b < |table'| ensures FiledIn(cs, table', ids + {i}, b) {
      assert FiledIn(cs, table, ids, b);
    }
  }

  /** Only hashes of filed clauses matter. */
  lemma FiledSame(cs: seq<Stored>, cs': seq<Stored>, table: Table, ids: set<nat>)
    requires Filed(cs, table, ids) && |cs| <= |cs'| && forall i | 0 <= i < |cs| :: cs'[i].hash == cs[i].hash
    ensures Filed(cs', table, ids)
  {
    hide Bucket;
    forall b | 0 <= b < |table| ensures FiledIn(cs', table, ids, b) {
      assert FiledIn(cs, table, ids, b);
    }
  }

  lemma FiledRemove(cs: seq<Stored>, table: Table, ids: set<nat>, b: nat, pos: nat)
    requires Filed(cs, table, ids) && b < |table| && pos < |table[b]|
    ensures table[b][pos] in ids && Filed(cs, table[b := RemoveAt(table[b], pos)], ids - {table[b][pos]})
  {
    var i := table[b][pos];
    assert FiledIn(cs, table, ids, b);
    assert i in table[b];
    var table' := table[b := RemoveAt(table[b], pos)];
    hide Bucket;
    RemoveDistinct(table[b], pos);
    hide RemoveAt;
    forall x | 0 <= x < |table'| ensures FiledIn(cs, table', ids - {i}, x) {
      assert FiledIn(cs, table, ids, x);
    }
  }

  lemma RemoveDistinct(s: seq<nat>, pos: nat)
    requires Distinct(s) && pos < |s|
    ensures Distinct(RemoveAt(s, pos)) && forall x :: x in RemoveAt(s, pos) <==> x in s && x != s[pos]
  {
    var r := RemoveAt(s, pos);
    forall x ensures x in r <==> x in s && x != s[pos] {
      if x in s && x != s[pos] {
        var k :| 0 <= k < |s| && s[k] == x;
        assert r[if k < pos then k else k - 1] == x;
      }
    }
  }

  /** `enlarge_clauses`: every clause goes to its chain in a table of twice the size. */
  method Enlarge(cs: seq<Stored>, table: Table, ghost ids: set<nat>) returns (r: Table)
    requires Filed(cs, table, ids) && (|table| == 0 || PowerOfTwo(|table|))
    ensures Filed(cs, r, ids) && PowerOfTwo(|r|) && |r| == if |table| == 0 then 1 else 2 * |table|
  {
    hide Bucket, PowerOfTwo;
    PowerDoubles(|table|);
    var size := if |table| > 0 then 2 * |table| else 1;
    r := seq(size, _ => []);
    ghost var done: set<nat> := {};
    for b := 0 to |table|
      invariant |r| == size && Filed(cs, r, done)
      invariant forall i: nat :: i in done <==> i in ids && i < |cs| && |table| > 0 && Bucket(cs[i].hash, |table|) < b
    {
      assert FiledIn(cs, table, ids, b);
      ghost var before := done;
      for k := 0 to |table[b]|
        invariant |r| == size && Filed(cs, r, done) && forall i: nat :: i in done <==> i in before || i in table[b][..k]
      {
        var i := table[b][k];
        assert i in table[b] && i !in table[b][..k];
        assert table[b][..k + 1] == table[b][..k] + [i];
        FiledPush(cs, r, done, i);
        var h := Bucket(cs[i].hash, size);
        r := r[h := [i] + r[h]];
        done := done + {i};
      }
      assert table[b][..|table[b]|] == table[b];
    }
    assert done == ids;
  }

  /** The lookup finds a clause exactly if a live one has the same literals. */
  method Find(nonces: seq<nat>, cs: seq<Stored>, table: Table, simplified: Clause) returns (b: nat, pos: Option<nat>)
    requires |nonces| > 0 && |table| > 0 && Filed(cs, table, LiveIds(cs)) && AllKeyed(nonces, cs) && StoreOk(cs)
    requires StrictlySorted(simplified)
    ensures b < |table|
    ensures pos.Some? ==> pos.value < |table[b]| && LiveAt(cs, table[b][pos.value]) && SameSet(cs[table[b][pos.value]].lits, simplified)
    ensures pos.Some? <==> exists i: nat | LiveAt(cs, i) :: SameSet(cs[i].lits, simplified)
  {
    hide Bucket, Hash, SameSet;
    var hash := Hash(nonces, simplified);
    b := Bucket(hash, |table|);
    assert FiledIn(cs, table, LiveIds(cs), b);
    var chain := table[b];
    for k := 0 to |chain|
      invariant forall x | 0 <= x < k :: chain[x] < |cs| && !SameSet(cs[chain[x]].lits, simplified)
    {
      assert chain[k] in chain;
      var c := cs[chain[k]];
      if c.hash == hash && |c.lits| == |simplified| && forall l | l in c.lits :: l in simplified {
        SameSize(c.lits, simplified);
        return b, Some(k);
      }
      Mismatch(nonces, c, simplified);
    }
    pos := None;
    forall i: nat | LiveAt(cs, i) ensures !SameSet(cs[i].lits, simplified) {
      if cs[i].hash == hash {
        assert i in chain;
      } else {
        Mismatch(nonces, cs[i], simplified);
      }
    }
  }

  lemma KeyedHash(nonces: seq<nat>, st: Stored, k: Clause)
    requires |nonces| > 0 && Keyed(nonces, st) && StrictlySorted(k) && SameSet(st.lits, k)
    ensures st.hash == Hash(nonces, k)
  {
    assert SameSet(k, st.lits);
  }

  lemma SameSize(a: Clause, b: Clause)
    requires Distinct(a) && StrictlySorted(b) && |a| == |b| && forall l | l in a :: l in b
    ensures SameSet(a, b)
  {
    StrictlySortedDistinct(b);
    DistinctSize(a);
    DistinctSize(b);
    assert ToSet(a) <= ToSet(b);
    SubsetEqual(ToSet(a), ToSet(b));
    forall l ensures l in a <==> l in b {
      assert l in ToSet(a) <==> l in ToSet(b);
    }
  }

  lemma SubsetEqual(s: set<Lit>, t: set<Lit>)
    requires s <= t && |s| == |t|
    ensures s == t
  {
    assert |t| == |s| + |t - s|;
    assert t - s == {};
  }

  lemma SameSetSize(a: Clause, b: Clause)
    requires Distinct(a) && Distinct(b) && SameSet(a, b)
    ensures |a| == |b|
  {
    DistinctSize(a);
    DistinctSize(b);
    assert ToSet(a) == ToSet(b);
  }

  /** A clause that differs in hash, size or a literal is another clause. */
  lemma Mismatch(nonces: seq<nat>, c: Stored, k: Clause)
    requires |nonces| > 0 && Keyed(nonces, c) && StrictlySorted(k) && Distinct(c.lits)
    requires c.hash != Hash(nonces, k) || |c.lits| != |k| || exists l | l in c.lits :: l !in k
    ensures !SameSet(c.lits, k)
  {
    if SameSet(c.lits, k) {
      KeyedHash(nonces, c, k);
      StrictlySortedDistinct(k);
      SameSetSize(c.lits, k);
    }
  }
}
