/**
 The extension stack: removed clauses with the literals that repair a model
 which falsifies them, and what it means that a simplified formula together
 with its stack stands for the original one.
 */
module Extension {
  import opened Cnf

  datatype Entry = Entry(wit: seq<Lit>, clause: Clause)

  /** The stack is flat; None is the separator 0. */
  type Stack = seq<Option<Lit>>

  function Somes(s: seq<Lit>): (r: Stack)
    ensures |r| == |s| && forall i | 0 <= i < |s| :: r[i] == Some(s[i])
  {
    seq(|s|, i requires 0 <= i < |s| => Some(s[i]))
  }

  function Flatten(es: seq<Entry>): (r: Stack) {
    if es == [] then []
    else
      var e := es[|es| - 1];
      Flatten(es[..|es| - 1]) + [None] + Somes(e.wit) + [None] + Somes(e.clause)
  }

  // ----- repairing a model -----

  function Put(m: Assignment, l: Lit): (r: Assignment)
    ensures True(r, l)
    ensures forall k: Lit | k.v != l.v :: True(r, k) == True(m, k)
  {
    if l.pos then m + {l.v} else m - {l.v}
  }

  /** Makes the literals true, the last one first. */
  function PutAll(m: Assignment, w: seq<Lit>): (r: Assignment)
    decreases |w|
  {
    if w == [] then m else PutAll(Put(m, w[|w| - 1]), w[..|w| - 1])
  }

  lemma PutOne(m: Assignment, l: Lit)
    ensures PutAll(m, [l]) == Put(m, l)
  {
    assert [l][..0] == [];
    assert PutAll(Put(m, l), []) == Put(m, l);
  }

  function Repair(m: Assignment, e: Entry): (r: Assignment) {
    if SatClause(m, e.clause) then m else PutAll(m, e.wit)
  }

  function ExtendAll(m: Assignment, es: seq<Entry>): (r: Assignment)
    decreases |es|
  {
    if es == [] then m else ExtendAll(Repair(m, es[|es| - 1]), es[..|es| - 1])
  }

  /** A consistent witness is made true as a whole, and nothing else changes. */
  lemma {:induction false} PutAllTrue(m: Assignment, w: seq<Lit>)
    requires Consistent(w)
    ensures forall l | l in w :: True(PutAll(m, w), l)
    ensures forall l: Lit | l !in w && Neg(l) !in w :: True(PutAll(m, w), l) == True(m, l)
    decreases |w|
  {
    if w != [] {
      var n := |w| - 1;
      var w' := w[..n];
      var m' := Put(m, w[n]);
      assert forall l | l in w' :: l in w;
      PutAllTrue(m', w');
      forall l | l in w ensures True(PutAll(m, w), l) {
        if l !in w' {
          assert l == w[n];
          assert Neg(l) !in w;
          assert True(m', l);
        }
      }
      forall l: Lit | l !in w && Neg(l) !in w ensures True(PutAll(m, w), l) == True(m, l) {
        assert w[n] in w;
        assert l.v != w[n].v;
      }
    }
  }

  // ----- simplified formulas -----

  /** Flipping the witness repairs the clause and breaks nothing in `f`. */
  ghost predicate Redundant(f: set<Clause>, e: Entry) {
    forall m: Assignment | Sat(m, f) && !SatClause(m, e.clause) :: Sat(PutAll(m, e.wit), f + {e.clause})
  }

  /** Every model of `f` is extended to a model of the original formula. */
  ghost predicate Reconstructs(orig: set<Clause>, f: set<Clause>, es: seq<Entry>) {
    forall m: Assignment | Sat(m, f) :: Sat(ExtendAll(m, es), orig)
  }

  ghost predicate Implies(f: set<Clause>, f': set<Clause>) {
    forall m: Assignment | Sat(m, f) :: Sat(m, f')
  }

  /** The invariant of all simplifications. */
  ghost predicate Simplified(orig: set<Clause>, f: set<Clause>, es: seq<Entry>) {
    Implies(orig, f) && Reconstructs(orig, f, es)
  }

  lemma SimplifiedStart(orig: set<Clause>)
    ensures Simplified(orig, orig, [])
  {
  }

  /** A redundant clause moves to the stack. */
  lemma WeakenStep(orig: set<Clause>, f: set<Clause>, f': set<Clause>, es: seq<Entry>, e: Entry)
    requires Simplified(orig, f, es) && Redundant(f', e)
    requires f' <= f <= f' + {e.clause}
    ensures Simplified(orig, f', es + [e])
  {
    hide SatClause;
    forall m: Assignment | Sat(m, f') ensures Sat(ExtendAll(m, es + [e]), orig) {
      var r := Repair(m, e);
      assert (es + [e])[..|es|] == es;
      assert ExtendAll(m, es + [e]) == ExtendAll(r, es);
      assert Sat(r, f);
    }
  }

  /** The formula is replaced by an equivalent one. */
  lemma RewriteStep(orig: set<Clause>, f: set<Clause>, f': set<Clause>, es: seq<Entry>)
    requires Simplified(orig, f, es) && Implies(f, f') && Implies(f', f)
    ensures Simplified(orig, f', es)
  {
    hide Sat;
  }

  /** One step of any simplification. */
  datatype Step = Rewrite(f: set<Clause>) | Weaken(f: set<Clause>, e: Entry)

  ghost predicate StepOk(f: set<Clause>, s: Step) {
    match s
    case Rewrite(f') => Implies(f, f') && Implies(f', f)
    case Weaken(f', e) => Redundant(f', e) && f' <= f <= f' + {e.clause}
  }

  ghost predicate RunOk(orig: set<Clause>, run: seq<Step>) {
    forall i | 0 <= i < |run| :: StepOk(Final(orig, run[..i]), run[i])
  }

  ghost function Final(orig: set<Clause>, run: seq<Step>): (f: set<Clause>) {
    if run == [] then orig else run[|run| - 1].f
  }

  ghost function Pushed(run: seq<Step>): (es: seq<Entry>) {
    if run == [] then []
    else
      var s := run[|run| - 1];
      Pushed(run[..|run| - 1]) + if s.Weaken? then [s.e] else []
  }

  /** Over every run: the simplified formula is satisfiable iff the original is, and its models extend. */
  lemma {:induction false} RunSound(orig: set<Clause>, run: seq<Step>)
    requires RunOk(orig, run)
    ensures Simplified(orig, Final(orig, run), Pushed(run))
  {
    hide Simplified, Redundant, Implies;
    if run == [] {
      SimplifiedStart(orig);
    } else {
      var n := |run| - 1;
      var front := run[..n];
      assert RunOk(orig, front) by {
        forall i | 0 <= i < |front| ensures StepOk(Final(orig, front[..i]), front[i]) {
          assert front[..i] == run[..i];
        }
      }
      RunSound(orig, front);
      assert StepOk(Final(orig, front), run[n]);
      match run[n]
      case Rewrite(f') =>
        RewriteStep(orig, Final(orig, front), f', Pushed(front));
        assert Pushed(run) == Pushed(front);
      case Weaken(f', e) => WeakenStep(orig, Final(orig, front), f', Pushed(front), e);
    }
  }

  // ----- the stack as the program keeps it -----

  function Size(es: seq<Entry>): (n: nat)
    ensures n == |Flatten(es)|
  {
    if es == [] then 0
    else
      var e := es[|es| - 1];
      Size(es[..|es| - 1]) + 2 + |e.wit| + |e.clause|
  }

  /** The entry e lies on the stack from position b on. */
  ghost predicate EntryAt(s: Stack, b: nat, e: Entry) {
    && b + 2 + |e.wit| + |e.clause| <= |s|
    && s[b] == None && s[b + 1 + |e.wit|] == None
    && (forall k | b < k <= b + |e.wit| :: s[k] == Some(e.wit[k - b - 1]))
    && (forall k | b + 2 + |e.wit| <= k < b + 2 + |e.wit| + |e.clause| :: s[k] == Some(e.clause[k - b - 2 - |e.wit|]))
  }

  lemma {:induction false} FlattenPush(es: seq<Entry>, e: Entry)
    ensures Flatten(es + [e]) == Flatten(es) + [None] + Somes(e.wit) + [None] + Somes(e.clause)
  {
    assert (es + [e])[..|es|] == es;
  }

  lemma {:induction false} FlattenLast(es: seq<Entry>, s: Stack)
    requires es != [] && Size(es) <= |s| && s[..Size(es)] == Flatten(es)
    ensures var b := Size(es[..|es| - 1]);
            EntryAt(s, b, es[|es| - 1]) && s[..b] == Flatten(es[..|es| - 1])
  {
    hide Flatten, EntryAt, Size;
    var e := es[|es| - 1];
    var front := es[..|es| - 1];
    assert front + [e] == es;
    FlattenPush(front, e);
    LayoutAt(Flatten(front), e, s[..Size(es)]);
    LayoutPrefix(s, Size(es), Size(front), e);
  }

  lemma LayoutPrefix(s: Stack, n: nat, b: nat, e: Entry)
    requires n <= |s| && EntryAt(s[..n], b, e)
    ensures EntryAt(s, b, e) && s[..n][..b] == s[..b]
  {
    assert forall k | 0 <= k < n :: s[k] == s[..n][k];
  }

  lemma LayoutAt(front: Stack, e: Entry, t: Stack)
    requires t == front + [None] + Somes(e.wit) + [None] + Somes(e.clause)
    ensures EntryAt(t, |front|, e) && t[..|front|] == front
  {
  }

  /** Every entry lies where the entries before it end. */
  lemma {:induction false} FlattenAt(es: seq<Entry>, n: nat)
    requires n < |es|
    ensures EntryAt(Flatten(es), Size(es[..n]), es[n])
    ensures Size(es[..n + 1]) == Size(es[..n]) + 2 + |es[n].wit| + |es[n].clause|
    decreases |es|
  {
    hide EntryAt, Flatten;
    var last := |es| - 1;
    var front := es[..last];
    var s := Flatten(es);
    assert s[..|s|] == s;
    FlattenLast(es, s);
    assert es[..n + 1][..n] == es[..n];
    if n < last {
      FlattenAt(front, n);
      assert front[..n] == es[..n];
      LayoutPrefix(s, Size(front), Size(es[..n]), es[n]);
    }
  }

  lemma SizeZero(es: seq<Entry>)
    ensures Size(es) == 0 <==> es == []
  {
  }

  /** External values where variables up to a bound follow their internal literals, if they have one. */
  function Mapped(vals: Assignment, internal: set<Lit>, e2i: map<nat, Lit>, maxVar: nat): (r: Assignment)
    ensures forall v: nat :: v in r <==> if 1 <= v <= maxVar && v in e2i then e2i[v] in internal else v in vals
  {
    (set v | v in vals && !(1 <= v <= maxVar && v in e2i)) + (set v | v in e2i && 1 <= v <= maxVar && e2i[v] in internal)
  }

  class External {
    var extension: Stack
    var vals: Assignment
    ghost var entries: seq<Entry>

    ghost predicate Valid()
      reads this
    {
      extension == Flatten(entries)
    }

    constructor ()
      ensures Valid() && entries == [] && vals == {}
    {
      extension, vals, entries := [], {}, [];
    }

    /** A clause with a witness of any size. */
    method PushClauseAndWitness(c: Clause, w: seq<Lit>)
      requires Valid()
      modifies this`extension, this`entries
      ensures Valid() && entries == old(entries) + [Entry(w, c)]
    {
      FlattenPush(entries, Entry(w, c));
      entries := entries + [Entry(w, c)];
      extension := extension + [None];
      for k := 0 to |w|
        invariant entries == old(entries) + [Entry(w, c)] && extension == old(extension) + [None] + Somes(w[..k])
      {
        extension := extension + [Some(w[k])];
        assert Somes(w[..k + 1]) == Somes(w[..k]) + [Some(w[k])];
      }
      assert w[..|w|] == w;
      extension := extension + [None];
      for k := 0 to |c|
        invariant entries == old(entries) + [Entry(w, c)] && extension == old(extension) + [None] + Somes(w) + [None] + Somes(c[..k])
      {
        extension := extension + [Some(c[k])];
        assert Somes(c[..k + 1]) == Somes(c[..k]) + [Some(c[k])];
      }
      assert c[..|c|] == c;
    }

    /** Blocked and eliminated clauses have a single witness literal. */
    method PushClause(c: Clause, pivot: Lit)
      requires Valid()
      modifies this`extension, this`entries
      ensures Valid() && entries == old(entries) + [Entry([pivot], c)]
    {
      PushClauseAndWitness(c, [pivot]);
    }

    method PushBinaryClause(pivot: Lit, other: Lit)
      requires Valid()
      modifies this`extension, this`entries
      ensures Valid() && entries == old(entries) + [Entry([pivot], [pivot, other])]
    {
      PushClauseAndWitness([pivot, other], [pivot]);
    }

    /** The scan of one clause on the stack, from its end. */
    method ScanClause(end: nat, ghost b: nat, ghost e: Entry) returns (i: nat, satisfied: bool)
      requires EntryAt(extension, b, e) && end == b + 2 + |e.wit| + |e.clause|
      ensures i == b + 1 + |e.wit| && satisfied == SatClause(vals, e.clause)
    {
      ghost var top := b + 2 + |e.wit|;
      satisfied := false;
      i := end - 1;
      var lit := extension[i];
      while lit.Some?
        invariant top - 1 <= i < end && lit == extension[i]
        invariant satisfied <==> exists k | i - top < k < |e.clause| :: True(vals, e.clause[k])
        decreases i
      {
        assert lit == Some(e.clause[i - top]);
        if !satisfied && True(vals, lit.value) {
          satisfied := true;
        }
        i := i - 1;
        lit := extension[i];
      }
    }

    method SkipWitness(start: nat, ghost b: nat, ghost e: Entry) returns (i: nat)
      requires EntryAt(extension, b, e) && start == b + 1 + |e.wit|
      ensures i == b
    {
      i := start - 1;
      while extension[i].Some?
        invariant b <= i < start
        decreases i
      {
        i := i - 1;
      }
    }

    method FlipWitness(start: nat, ghost b: nat, ghost e: Entry) returns (i: nat)
      requires EntryAt(extension, b, e) && start == b + 1 + |e.wit|
      modifies this`vals
      ensures i == b && vals == PutAll(old(vals), e.wit)
    {
      ghost var w := e.wit;
      i := start - 1;
      var lit := extension[i];
      assert w[..|w|] == w;
      while lit.Some?
        invariant b <= i < start && lit == extension[i]
        invariant PutAll(vals, w[..i - b]) == PutAll(old(vals), w)
        decreases i
      {
        var v := lit.value.v;
        assert lit.value == w[i - b - 1];
        assert w[..i - b][..i - b - 1] == w[..i - b - 1];
        ghost var before := vals;
        if !True(vals, lit.value) {
          vals := if v in vals then vals - {v} else vals + {v};
        }
        assert vals == Put(before, lit.value);
        i := i - 1;
        lit := extension[i];
      }
    }

    /** The first loop of `extend`: variables that have an internal literal take its value. */
    method CopyValues(internal: set<Lit>, e2i: map<nat, Lit>, maxVar: nat)
      modifies this`vals
      ensures vals == Mapped(old(vals), internal, e2i, maxVar)
    {
      for i := 1 to maxVar + 1
        invariant vals == Mapped(old(vals), internal, e2i, i - 1)
      {
        if i in e2i {
          vals := if e2i[i] in internal then vals + {i} else vals - {i};
        }
      }
    }

    /** `extend`: the internal values, repaired backward over the stack. */
    method Extend(internal: set<Lit>, e2i: map<nat, Lit>, maxVar: nat)
      requires Valid()
      modifies this`vals
      ensures vals == ExtendAll(Mapped(old(vals), internal, e2i, maxVar), entries)
    {
      CopyValues(internal, e2i, maxVar);
      ExtendStack();
    }

    /** The second loop of `extend`: backward over the flat stack, as the specification does over entries. */
    method ExtendStack()
      requires Valid()
      modifies this`vals
      ensures vals == ExtendAll(old(vals), entries)
    {
      var i := |extension|;
      ghost var n := |entries|;
      assert entries[..n] == entries;
      while i > 0
        invariant n <= |entries| && i == Size(entries[..n]) <= |extension| && extension[..i] == Flatten(entries[..n])
        invariant ExtendAll(vals, entries[..n]) == ExtendAll(old(vals), entries)
        decreases n
      {
        ghost var es := entries[..n];
        assert n > 0;
        assert es[..n - 1] == entries[..n - 1];
        FlattenLast(es, extension);
        ghost var e := es[n - 1];
        ghost var b := Size(es[..n - 1]);
        var satisfied: bool;
        i, satisfied := ScanClause(i, b, e);
        if satisfied {
          i := SkipWitness(i, b, e);
        } else {
          i := FlipWitness(i, b, e);
        }
        n := n - 1;
      }
    }

    /** `traverse_witnesses_backward`; the visitor may stop the traversal. */
    method TraverseBackward() returns (visited: seq<Entry>, all: bool)
      requires Valid()
      ensures |visited| <= |entries| && forall k | 0 <= k < |visited| :: visited[k] == entries[|entries| - 1 - k]
      ensures all ==> |visited| == |entries|
    {
      hide Flatten, Size;
      visited := [];
      var i := |extension|;
      ghost var n := |entries|;
      assert entries[..n] == entries;
      while i > 0
        invariant n <= |entries| && i == Size(entries[..n])
        invariant |visited| == |entries| - n && forall k | 0 <= k < |visited| :: visited[k] == entries[|entries| - 1 - k]
        decreases n
      {
        SizeZero(entries[..n]);
        FlattenAt(entries, n - 1);
        n := n - 1;
        ghost var b := Size(entries[..n]);
        var clause, wit: seq<Lit>;
        i, clause := ReadBackward(i, b + 1 + |entries[n].wit|, entries[n].clause);
        i, wit := ReadBackward(i, b, entries[n].wit);
        visited := visited + [Entry(wit, clause)];
        var more: bool := *;
        if !more {
          return visited, false;
        }
      }
      SizeZero(entries[..n]);
      all := true;
    }

    /** Literals down to the separator, put back into the order they were pushed. */
    method ReadBackward(end: nat, ghost b: nat, ghost part: seq<Lit>) returns (i: nat, ls: seq<Lit>)
      requires b + 1 + |part| == end <= |extension| && extension[b] == None
      requires forall k | b < k < end :: extension[k] == Some(part[k - b - 1])
      ensures i == b && ls == part
    {
      var back: seq<Lit> := [];
      i := end - 1;
      while extension[i].Some?
        invariant b <= i < end && |back| == end - 1 - i
        invariant forall k | 0 <= k < |back| :: back[k] == part[|part| - 1 - k]
        decreases i
      {
        back := back + [extension[i].value];
        i := i - 1;
      }
      ls := seq(|back|, k requires 0 <= k < |back| => back[|back| - 1 - k]);
    }

    /** `traverse_witnesses_forward`. */
    method TraverseForward() returns (visited: seq<Entry>, all: bool)
      requires Valid()
      ensures visited <= entries && (all ==> visited == entries)
    {
      hide Flatten, Size;
      visited := [];
      all := true;
      SizeZero(entries);
      SizeZero(entries[..0]);
      if |extension| > 0 {
        ghost var n := 0;
        var i := 1;
        while true
          invariant n < |entries| && i == Size(entries[..n]) + 1 && visited == entries[..n]
          decreases |entries| - n
        {
          FlattenAt(entries, n);
          ghost var b := Size(entries[..n]);
          ghost var e := entries[n];
          var clause, wit: seq<Lit>;
          i, wit := ReadForward(i, b + 1 + |e.wit|, e.wit);
          if n + 1 < |entries| {
            FlattenAt(entries, n + 1);
          } else {
            assert entries[..n + 1] == entries;
          }
          i, clause := ReadForward(i, b + 2 + |e.wit| + |e.clause|, e.clause);
          visited := visited + [Entry(wit, clause)];
          n := n + 1;
          var more: bool := *;
          if !more {
            return visited, false;
          }
          if i == |extension| {
            break;
          }
        }
      }
    }

    /** Literals up to and past the separator at `stop`, or up to the end of the stack. */
    method ReadForward(start: nat, ghost stop: nat, ghost part: seq<Lit>) returns (i: nat, ls: seq<Lit>)
      requires start + |part| == stop <= |extension| && (stop < |extension| ==> extension[stop] == None)
      requires forall k | start <= k < stop :: extension[k] == Some(part[k - start])
      ensures ls == part && i == if stop == |extension| then stop else stop + 1
    {
      ls := [];
      i := start;
      while i < |extension| && extension[i].Some?
        invariant start <= i <= stop && ls == part[..i - start]
        decreases stop - i
      {
        ls := ls + [extension[i].value];
        i := i + 1;
      }
      if i < |extension| {
        i := i + 1;
      }
    }
  }
}
