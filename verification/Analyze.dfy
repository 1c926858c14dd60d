/**
 Conflict analysis: the first unique implication point, the learned clause and
 the jump back, on trails that may be out of order.
 */
module Analyze {
  import opened Cnf
  import opened Trail
  import opened Minimize
  import opened Dominators

  ghost function FrontSet(s: State, seen: set<nat>, i: nat): (r: set<nat>) {
    set k: nat | k < i && InFront(s, seen, k)
  }

  /** In every model the clause so far holds, or a literal in front is false, or one of `lits` holds. */
  ghost predicate Derived(f: set<Clause>, s: State, clause: Clause, seen: set<nat>, i: nat, lits: seq<Lit>) {
    forall m: Assignment | Sat(m, f) :: DerivedIn(m, s, clause, seen, i, lits)
  }

  ghost predicate DerivedIn(m: Assignment, s: State, clause: Clause, seen: set<nat>, i: nat, lits: seq<Lit>) {
    || SatClause(m, clause)
    || SatClause(m, lits)
    || exists k: nat | k < i && InFront(s, seen, k) :: !True(m, s.trail[k])
  }

  ghost predicate ClauseOk(s: State, clause: Clause, seen: set<nat>) {
    && Distinct(clause)
    && forall l | l in clause :: l.v in seen && FalseIn(s, l) && 0 < Lev(s, l) < Level(s)
  }

  /** A seen literal of a lower level is in the clause. */
  ghost predicate SeenOk(s: State, clause: Clause, seen: set<nat>) {
    forall k | 0 <= k < |s.trail| && s.trail[k].v in seen && Lev(s, s.trail[k]) < Level(s) :: Neg(s.trail[k]) in clause
  }

  ghost predicate Analyzing(f: set<Clause>, s: State, clause: Clause, seen: set<nat>, open: nat, i: nat, lits: seq<Lit>) {
    && i <= |s.trail| && ClauseOk(s, clause, seen) && SeenOk(s, clause, seen)
    && open == |FrontSet(s, seen, i)|
    && Derived(f, s, clause, seen, i, lits)
  }

  /** The literals of a reason are false and come earlier. */
  ghost predicate Earlier(s: State, lits: seq<Lit>, i: nat) {
    forall l | l in lits :: FalseIn(s, l) && Pos(s, l) < i && Lev(s, l) <= Level(s)
  }

  lemma LowerLiteral(f: set<Clause>, s: State, clause: Clause, seen: set<nat>, open: nat, i: nat, l: Lit, rest: seq<Lit>)
    requires TrailOk(f, s) && Analyzing(f, s, clause, seen, open, i, [l] + rest) && FalseIn(s, l)
    requires l.v !in seen && 0 < Lev(s, l) < Level(s)
    ensures Analyzing(f, s, clause + [l], seen + {l.v}, open, i, rest)
  {
    var seen' := seen + {l.v};
    var clause' := clause + [l];
    forall k: nat | k < |s.trail| ensures InFront(s, seen', k) == InFront(s, seen, k) {
    }
    assert FrontSet(s, seen', i) == FrontSet(s, seen, i);
    assert ClauseOk(s, clause', seen');
    assert SeenOk(s, clause', seen') by {
      forall k | 0 <= k < |s.trail| && s.trail[k].v in seen' && Lev(s, s.trail[k]) < Level(s) ensures Neg(s.trail[k]) in clause' {
        if s.trail[k].v == l.v {
          TrailDistinct(f, s, k, Pos(s, l));
        }
      }
    }
    forall m: Assignment | Sat(m, f) ensures DerivedIn(m, s, clause', seen', i, rest) {
      assert DerivedIn(m, s, clause, seen, i, [l] + rest);
      DerivedMove(m, s, clause, clause', seen, seen', i, l, rest);
    }
  }

  lemma DerivedMove(m: Assignment, s: State, clause: Clause, clause': Clause, seen: set<nat>, seen': set<nat>, i: nat, l: Lit, rest: seq<Lit>)
    requires DerivedIn(m, s, clause, seen, i, [l] + rest)
    requires (forall x | x in clause :: x in clause') && seen <= seen'
    requires True(m, l) ==> l in clause' || exists k: nat | k < i && InFront(s, seen', k) :: s.trail[k] == Neg(l)
    ensures DerivedIn(m, s, clause', seen', i, rest)
  {
    if SatClause(m, clause) {
      var x :| x in clause && True(m, x);
      assert x in clause';
    } else if SatClause(m, [l] + rest) {
      var x :| x in [l] + rest && True(m, x);
      if x in rest {
      } else {
        assert x == l;
        if l !in clause' {
          var k: nat :| k < i && InFront(s, seen', k) && s.trail[k] == Neg(l);
          assert !True(m, s.trail[k]);
        }
      }
    } else {
      var k: nat :| k < i && InFront(s, seen, k) && !True(m, s.trail[k]);
      assert InFront(s, seen', k);
    }
  }

  lemma LevelLiteral(f: set<Clause>, s: State, clause: Clause, seen: set<nat>, open: nat, i: nat, l: Lit, rest: seq<Lit>)
    requires TrailOk(f, s) && Analyzing(f, s, clause, seen, open, i, [l] + rest) && FalseIn(s, l) && Pos(s, l) < i
    requires l.v !in seen && Lev(s, l) == Level(s)
    ensures Analyzing(f, s, clause, seen + {l.v}, open + 1, i, rest)
  {
    var seen' := seen + {l.v};
    var p := Pos(s, l);
    hide Derived;
    forall k: nat | k < |s.trail| && k != p ensures InFront(s, seen', k) == InFront(s, seen, k) {
      if s.trail[k].v == l.v {
        TrailDistinct(f, s, k, p);
      }
    }
    assert FrontSet(s, seen', i) == FrontSet(s, seen, i) + {p};
    assert SeenOk(s, clause, seen') by {
      forall k | 0 <= k < |s.trail| && s.trail[k].v in seen' && Lev(s, s.trail[k]) < Level(s) ensures Neg(s.trail[k]) in clause {
      }
    }
    LevelDerived(f, s, clause, seen, i, l, rest);
  }

  lemma LevelDerived(f: set<Clause>, s: State, clause: Clause, seen: set<nat>, i: nat, l: Lit, rest: seq<Lit>)
    requires Derived(f, s, clause, seen, i, [l] + rest) && FalseIn(s, l) && Pos(s, l) < i && Lev(s, l) == Level(s)
    ensures Derived(f, s, clause, seen + {l.v}, i, rest)
  {
    var p := Pos(s, l);
    assert InFront(s, seen + {l.v}, p) && s.trail[p] == Neg(l);
    forall m: Assignment | Sat(m, f) ensures DerivedIn(m, s, clause, seen + {l.v}, i, rest) {
      assert DerivedIn(m, s, clause, seen, i, [l] + rest);
      DerivedMove(m, s, clause, clause, seen, seen + {l.v}, i, l, rest);
    }
  }

  /** A literal seen before is in the clause or in front already; one of level 0 is false in every model. */
  lemma SkipLiteral(f: set<Clause>, s: State, clause: Clause, seen: set<nat>, open: nat, i: nat, l: Lit, rest: seq<Lit>)
    requires TrailOk(f, s) && Analyzing(f, s, clause, seen, open, i, [l] + rest) && FalseIn(s, l) && Pos(s, l) < i && Lev(s, l) <= Level(s)
    requires l.v in seen || Lev(s, l) == 0
    ensures Analyzing(f, s, clause, seen, open, i, rest)
  {
    var p := Pos(s, l);
    forall m: Assignment | Sat(m, f) ensures DerivedIn(m, s, clause, seen, i, rest) {
      assert DerivedIn(m, s, clause, seen, i, [l] + rest);
      if l.v in seen {
        if Lev(s, l) < Level(s) {
          assert Neg(s.trail[p]) == l;
        } else {
          assert InFront(s, seen, p);
        }
      } else {
        RootTrue(f, s, l, m);
      }
      DerivedMove(m, s, clause, clause, seen, seen, i, l, rest);
    }
  }

  /** `analyze_reason`: all literals of the reason but the one it forced. */
  method AnalyzeReason(ghost f: set<Clause>, s: State, uip: Option<Lit>, reason: Clause, clause0: Clause, seen0: set<nat>, open0: nat, ghost i: nat)
      returns (clause: Clause, seen: set<nat>, open: nat)
    requires Level(s) > 0 && TrailOk(f, s)
    requires Analyzing(f, s, clause0, seen0, open0, i, Others(reason, uip)) && Earlier(s, Others(reason, uip), i)
    ensures Analyzing(f, s, clause, seen, open, i, []) && open >= open0
    ensures forall l | l in Others(reason, uip) && Lev(s, l) == Level(s) :: l.v in seen
    ensures Gathered(Others(reason, uip), clause0, seen0, clause, seen)
  {
    hide TrailOk, Analyzing, FalseIn, Lev, Pos, Gathered, Others;
    GatheredStart(Others(reason, uip), clause0, seen0);
    clause, seen, open := clause0, seen0, open0;
    OthersEnds(reason, uip);
    for k := 0 to |reason|
      invariant Analyzing(f, s, clause, seen, open, i, Others(reason[k..], uip)) && open >= open0
      invariant forall l | l in Others(reason[..k], uip) && Lev(s, l) == Level(s) :: l.v in seen
      invariant Gathered(Others(reason, uip), clause0, seen0, clause, seen)
    {
      var l := reason[k];
      OthersStep(reason, k, uip);
      GatheredNext(Others(reason, uip), clause0, seen0, clause, seen, l);
      if uip != Some(l) {
        assert l in Others(reason, uip);
        if l.v in seen || Lev(s, l) == 0 {
          SkipLiteral(f, s, clause, seen, open, i, l, Others(reason[k + 1..], uip));
        } else if Lev(s, l) < Level(s) {
          LowerLiteral(f, s, clause, seen, open, i, l, Others(reason[k + 1..], uip));
          clause, seen := clause + [l], seen + {l.v};
        } else {
          LevelLiteral(f, s, clause, seen, open, i, l, Others(reason[k + 1..], uip));
          seen, open := seen + {l.v}, open + 1;
        }
      }
    }
  }

  /** Only these literals were put into the clause or seen. */
  ghost predicate Gathered(lits: Clause, clause0: Clause, seen0: set<nat>, clause: Clause, seen: set<nat>) {
    && seen0 <= seen && (forall l | l in clause :: l in clause0 || l in lits)
    && forall v | v in seen :: v in seen0 || exists l | l in lits :: l.v == v
  }

  lemma GatheredStart(lits: Clause, clause: Clause, seen: set<nat>)
    ensures Gathered(lits, clause, seen, clause, seen)
  {
  }

  lemma GatheredNext(lits: Clause, clause0: Clause, seen0: set<nat>, clause: Clause, seen: set<nat>, l: Lit)
    requires Gathered(lits, clause0, seen0, clause, seen)
    ensures l in lits ==> Gathered(lits, clause0, seen0, clause + [l], seen + {l.v}) && Gathered(lits, clause0, seen0, clause, seen + {l.v})
  {
  }

  /** The literals of a clause without the one it forces. */
  ghost function Others(c: Clause, uip: Option<Lit>): (r: Clause)
    ensures forall l :: l in r <==> l in c && uip != Some(l)
  {
    if c == [] then [] else (if uip == Some(c[0]) then [] else [c[0]]) + Others(c[1..], uip)
  }

  lemma OthersEnds(c: Clause, uip: Option<Lit>)
    ensures Others(c[0..], uip) == Others(c, uip) && Others(c[..0], uip) == []
    ensures Others(c[|c|..], uip) == [] && Others(c[..|c|], uip) == Others(c, uip)
  {
    assert c[0..] == c && c[..|c|] == c && c[|c|..] == [] && c[..0] == [];
  }

  lemma OthersStep(c: Clause, k: nat, uip: Option<Lit>)
    requires k < |c|
    ensures Others(c[k..], uip) == if uip == Some(c[k]) then Others(c[k + 1..], uip) else [c[k]] + Others(c[k + 1..], uip)
    ensures forall l | l in Others(c[..k + 1], uip) :: l in Others(c[..k], uip) || (l == c[k] && uip != Some(l))
    ensures uip != Some(c[k]) ==> c[k] in Others(c, uip)
  {
    assert c[k..][1..] == c[k + 1..];
    assert c[..k + 1] == c[..k] + [c[k]];
  }

  // ----- the first UIP -----

  lemma AnalyzeStart(f: set<Clause>, s: State, conflict: Clause)
    requires TrailOk(f, s) && Entails(f, conflict) && forall l | l in conflict :: FalseIn(s, l)
    ensures Analyzing(f, s, [], {}, 0, |s.trail|, Others(conflict, None)) && Earlier(s, Others(conflict, None), |s.trail|)
  {
    assert FrontSet(s, {}, |s.trail|) == {};
    forall m: Assignment | Sat(m, f) ensures DerivedIn(m, s, [], {}, |s.trail|, Others(conflict, None)) {
      var l :| l in conflict && True(m, l);
      assert l in Others(conflict, None);
    }
    forall l | l in conflict ensures Lev(s, l) <= Level(s) {
      FalseLevel(f, s, l);
    }
  }

  /** A literal on the conflict level makes the front non-empty. */
  lemma FrontNonEmpty(s: State, seen: set<nat>, i: nat, l: Lit)
    requires FalseIn(s, l) && Pos(s, l) < i && l.v in seen && Lev(s, l) == Level(s)
    ensures |FrontSet(s, seen, i)| > 0
  {
    assert InFront(s, seen, Pos(s, l));
    assert Pos(s, l) in FrontSet(s, seen, i);
  }

  lemma FrontShrink(s: State, seen: set<nat>, i: nat)
    ensures FrontSet(s, seen, i + 1) == if InFront(s, seen, i) then FrontSet(s, seen, i) + {i} else FrontSet(s, seen, i)
    ensures |FrontSet(s, seen, i + 1)| == |FrontSet(s, seen, i)| + if InFront(s, seen, i) then 1 else 0
  {
    assert i !in FrontSet(s, seen, i);
  }

  /** The walk back over literals that are not in front changes nothing. */
  lemma WalkBack(f: set<Clause>, s: State, clause: Clause, seen: set<nat>, open: nat, i: nat)
    requires Analyzing(f, s, clause, seen, open, i + 1, []) && !InFront(s, seen, i)
    ensures Analyzing(f, s, clause, seen, open, i, [])
  {
    FrontShrink(s, seen, i);
    forall m: Assignment | Sat(m, f) ensures DerivedIn(m, s, clause, seen, i, []) {
      assert DerivedIn(m, s, clause, seen, i + 1, []);
    }
  }

  /** With other literals in front, the literal is no decision. */
  lemma HasReason(f: set<Clause>, s: State, seen: set<nat>, i: nat)
    requires TrailOk(f, s) && Level(s) > 0 && i < |s.trail| && InFront(s, seen, i) && |FrontSet(s, seen, i)| > 0
    ensures Reason(s, s.trail[i]).Some?
  {
    var k :| k in FrontSet(s, seen, i);
    assert AtOk(f, s, i);
  }

  /** Resolving with the reason. */
  lemma ResolveReason(f: set<Clause>, s: State, clause: Clause, seen: set<nat>, open: nat, i: nat)
    requires TrailOk(f, s) && Analyzing(f, s, clause, seen, open, i + 1, []) && i < |s.trail| && InFront(s, seen, i)
    requires Reason(s, s.trail[i]).Some? && open > 0
    ensures var uip := s.trail[i]; var lits := Others(Reason(s, uip).value, Some(uip));
            Analyzing(f, s, clause, seen, open - 1, i, lits) && Earlier(s, lits, i)
  {
    var uip := s.trail[i];
    var c := Reason(s, uip).value;
    var lits := Others(c, Some(uip));
    assert AtOk(f, s, i);
    assert Forces(f, s, uip, c);
    FrontShrink(s, seen, i);
    forall m: Assignment | Sat(m, f) ensures DerivedIn(m, s, clause, seen, i, lits) {
      assert DerivedIn(m, s, clause, seen, i + 1, []);
      if !SatClause(m, clause) {
        var k: nat :| k < i + 1 && InFront(s, seen, k) && !True(m, s.trail[k]);
        if k == i {
          var l :| l in c && True(m, l);
          assert l in lits;
        }
      }
    }
  }

  /** The learned clause: false, implied, and with exactly one literal on the conflict level. */
  ghost predicate Learned(f: set<Clause>, s: State, clause: Clause, uip: Lit) {
    && Entails(f, clause) && Distinct(clause)
    && clause != [] && clause[|clause| - 1] == Neg(uip) && uip in s.trail && Lev(s, uip) == Level(s)
    && (forall l | l in clause :: FalseIn(s, l) && Lev(s, l) > 0)
    && (forall l | l in clause && l != Neg(uip) :: Lev(s, l) < Level(s))
  }

  lemma UipLearned(f: set<Clause>, s: State, clause: Clause, seen: set<nat>, i: nat)
    requires TrailOk(f, s) && Level(s) > 0 && Analyzing(f, s, clause, seen, 1, i + 1, []) && i < |s.trail| && InFront(s, seen, i)
    ensures Learned(f, s, clause + [Neg(s.trail[i])], s.trail[i])
  {
    var uip := s.trail[i];
    var learned := clause + [Neg(uip)];
    FrontShrink(s, seen, i);
    assert FrontSet(s, seen, i) == {};
    assert AtOk(f, s, i);
    assert Neg(uip).v == uip.v && FalseIn(s, Neg(uip)) && Lev(s, Neg(uip)) == Level(s);
    forall m: Assignment | Sat(m, f) ensures SatClause(m, learned) {
      assert DerivedIn(m, s, clause, seen, i + 1, []);
      if SatClause(m, clause) {
        var l :| l in clause && True(m, l);
        assert l in learned;
      } else {
        var k: nat :| k < i + 1 && InFront(s, seen, k) && !True(m, s.trail[k]);
        assert k < i ==> k in FrontSet(s, seen, i);
        assert Neg(uip) in learned && True(m, Neg(uip));
      }
    }
    hide Derived, Entails;
    assert forall l | l in learned :: l in clause || l == Neg(uip);
    assert Neg(uip) !in clause;
  }

  /**
   The loop of `analyze` up to the first UIP: the clause follows from the formula, and its literal on
   the conflict level is the unique implication point closest to the conflict.
   */
  method FirstUip(ghost f: set<Clause>, s: State, conflict: Clause) returns (clause: Clause, uip: Lit)
    requires TrailOk(f, s) && Level(s) > 0 && Entails(f, conflict) && forall l | l in conflict :: FalseIn(s, l)
    requires exists l | l in conflict :: Lev(s, l) == Level(s)
    ensures Learned(f, s, clause, uip) && FirstUnique(s, conflict, clause, uip)
  {
    hide TrailOk, Analyzing, Learned, FrontSet, Entails, Walk, Avoidable, FirstUnique, Gathered, Others, InFront, FalseIn, Level;
    AnalyzeStart(f, s, conflict);
    var reason, from := conflict, None;
    var i, open := |s.trail|, 0;
    var seen: set<nat> := {};
    clause, uip := [], Lit(0, false);
    while true
      invariant 0 <= i <= |s.trail| && Analyzing(f, s, clause, seen, open, i, Others(reason, from))
      invariant Earlier(s, Others(reason, from), i)
      invariant if from.None? then reason == conflict && i == |s.trail| && clause == [] && seen == {} && open == 0
                else open > 0 && i < |s.trail| && from == Some(s.trail[i]) && Reason(s, s.trail[i]) == Some(reason)
                     && InFront(s, seen, i) && Walk(s, conflict, clause, seen, i + 1) && Avoidable(s, conflict, s.trail[i])
      decreases i
    {
      ghost var clause0, seen0, open0 := clause, seen, open;
      clause, seen, open := AnalyzeReason(f, s, from, reason, clause, seen, open, i);
      OpenIsFront(f, s, clause, seen, open, i);
      if from.None? {
        ghost var l :| l in conflict && Lev(s, l) == Level(s);
        FrontNonEmpty(s, seen, i, l);
        FirstGathered(f, s, conflict, clause, seen);
      } else {
        NextGathered(f, s, conflict, clause0, seen0, i, clause, seen);
      }
      ghost var n := i;
      i := NextSeen(f, s, clause, seen, open, i);
      uip := s.trail[i];
      WalkDown(f, s, conflict, clause, seen, n, i);
      OpenIsFront(f, s, clause, seen, open, i + 1);
      FrontShrink(s, seen, i);
      open := open - 1;
      if open == 0 {
        UipLearned(f, s, clause, seen, i);
        NothingLeft(s, seen, i);
        WalkEnd(f, s, conflict, clause, seen, i);
        break;
      }
      ghost var k := AnotherLeft(s, seen, i);
      WalkAvoid(f, s, conflict, clause, seen, i, k);
      HasReason(f, s, seen, i);
      ResolveReason(f, s, clause, seen, open + 1, i);
      reason, from := s.vars[uip.v].reason.value, Some(uip);
    }
    clause := clause + [Neg(uip)];
  }

  lemma FirstGathered(f: set<Clause>, s: State, conflict: Clause, clause: Clause, seen: set<nat>)
    requires TrailOk(f, s) && (forall l | l in conflict :: FalseIn(s, l)) && Gathered(Others(conflict, None), [], {}, clause, seen)
    requires forall l | l in Others(conflict, None) && Lev(s, l) == Level(s) :: l.v in seen
    ensures Walk(s, conflict, clause, seen, |s.trail|)
  {
    WalkStart(f, s, conflict, clause, seen);
  }

  lemma NextGathered(f: set<Clause>, s: State, conflict: Clause, clause: Clause, seen: set<nat>, i: nat, clause': Clause, seen': set<nat>)
    requires TrailOk(f, s) && i < |s.trail| && InFront(s, seen, i) && Walk(s, conflict, clause, seen, i + 1)
    requires Avoidable(s, conflict, s.trail[i]) && Reason(s, s.trail[i]).Some?
    requires var lits := Others(Reason(s, s.trail[i]).value, Some(s.trail[i]));
             Gathered(lits, clause, seen, clause', seen') && forall l | l in lits && Lev(s, l) == Level(s) :: l.v in seen'
    ensures Walk(s, conflict, clause', seen', i)
  {
    var c := Reason(s, s.trail[i]).value;
    var lits := Others(c, Some(s.trail[i]));
    assert LookedAt(s, clause, seen, i, clause', seen') by {
      forall v | v in seen' && v !in seen ensures exists o | o in c && o != s.trail[i] :: o.v == v {
        var l :| l in lits && l.v == v;
      }
      assert forall o | o in c && o != s.trail[i] :: o in lits;
    }
    WalkResolve(f, s, conflict, clause, seen, i, clause', seen');
  }

  lemma NothingLeft(s: State, seen: set<nat>, i: nat)
    requires |FrontSet(s, seen, i)| == 0
    ensures forall k: nat | k < i :: !InFront(s, seen, k)
  {
    forall k: nat | k < i ensures !InFront(s, seen, k) {
      assert k !in FrontSet(s, seen, i);
    }
  }

  lemma AnotherLeft(s: State, seen: set<nat>, i: nat) returns (k: nat)
    requires |FrontSet(s, seen, i)| > 0
    ensures k < i && InFront(s, seen, k)
  {
    k :| k in FrontSet(s, seen, i);
  }

  lemma OpenIsFront(f: set<Clause>, s: State, clause: Clause, seen: set<nat>, open: nat, i: nat)
    requires Analyzing(f, s, clause, seen, open, i, [])
    ensures open == |FrontSet(s, seen, i)|
  {
  }

  /** The inner loop: the last seen literal on the conflict level. */
  method NextSeen(ghost f: set<Clause>, s: State, ghost clause: Clause, seen: set<nat>, open: nat, start: nat) returns (i: nat)
    requires Analyzing(f, s, clause, seen, open, start, []) && open > 0
    ensures i < start && i < |s.trail| && InFront(s, seen, i) && Analyzing(f, s, clause, seen, open, i + 1, [])
    ensures forall k | i < k < start :: !InFront(s, seen, k)
  {
    hide Analyzing;
    FrontBelow(f, s, clause, seen, open, start);
    i := start;
    while true
      invariant i <= start && i <= |s.trail| && Analyzing(f, s, clause, seen, open, i, [])
      invariant forall k | i <= k < start :: !InFront(s, seen, k)
      decreases i
    {
      FrontBelow(f, s, clause, seen, open, i);
      i := i - 1;
      if s.trail[i].v in seen && Lev(s, s.trail[i]) == Level(s) {
        return;
      }
      WalkBack(f, s, clause, seen, open, i);
    }
  }

  lemma FrontBelow(f: set<Clause>, s: State, clause: Clause, seen: set<nat>, open: nat, i: nat)
    requires Analyzing(f, s, clause, seen, open, i, []) && open > 0
    ensures 0 < i <= |s.trail|
  {
    var k :| k in FrontSet(s, seen, i);
  }

  // ----- the whole analysis -----

  /** Two places of the conflict hold literals of its highest level. */
  predicate TwoHighest(s: State, conflict: Clause, level: nat) {
    exists x, y | 0 <= x < y < |conflict| :: Lev(s, conflict[x]) == level && Lev(s, conflict[y]) == level
  }

  /** The first loop of `find_conflict_level`: the highest level in the conflict, and its literal if there is only one. */
  method ConflictLevel(ghost f: set<Clause>, s: State, conflict: Clause) returns (level: nat, forced: Option<Lit>)
    requires TrailOk(f, s) && forall l | l in conflict :: FalseIn(s, l)
    ensures level <= Level(s) && forall l | l in conflict :: Lev(s, l) <= level
    ensures level > 0 ==> exists l | l in conflict :: Lev(s, l) == level
    ensures forced.Some? ==> level > 0 && forced.value in conflict && Lev(s, forced.value) == level
    ensures forced.Some? ==> forall l | l in conflict && l != forced.value :: Lev(s, l) < level
    ensures forced.None? && level > 0 ==> TwoHighest(s, conflict, level)
  {
    hide Entails, AtOk;
    level, forced := 0, None;
    var count := 0;
    for k := 0 to |conflict|
      invariant level <= Level(s) && forall x | 0 <= x < k :: Lev(s, conflict[x]) <= level
      invariant level > 0 ==> forced.Some?
      invariant forced.Some? ==> level > 0 && forced.value in conflict && Lev(s, forced.value) == level
      invariant forced.Some? && count == 1 ==> forall x | 0 <= x < k && conflict[x] != forced.value :: Lev(s, conflict[x]) < level
      invariant level > 0 ==> count >= 1
      invariant level > 0 ==> exists x | 0 <= x < k :: Lev(s, conflict[x]) == level
      invariant level > 0 && count > 1 ==> exists x, y | 0 <= x < y < k :: Lev(s, conflict[x]) == level && Lev(s, conflict[y]) == level
    {
      FalseLevel(f, s, conflict[k]);
      var tmp := Lev(s, conflict[k]);
      if tmp > level {
        level, forced, count := tmp, Some(conflict[k]), 1;
      } else if tmp == level {
        count := count + 1;
        if level == Level(s) && count > 1 {
          forall l | l in conflict ensures Lev(s, l) <= level {
            FalseLevel(f, s, l);
          }
          if level > 0 {
            assert exists l | l in conflict :: Lev(s, l) == level by {
              assert Lev(s, forced.value) == level;
            }
          }
          return level, None;
        }
      }
    }
    if level > 0 {
      assert Lev(s, forced.value) == level;
    }
    if count != 1 {
      forced := None;
    }
  }

  method FindHighest(s: State, lits: array<Lit>, i: nat, res: nat) returns (p: nat)
    requires i < lits.Length && forall k | 0 <= k < lits.Length :: Lev(s, lits[k]) <= res
    ensures i <= p < lits.Length && forall k | i <= k < lits.Length :: Lev(s, lits[k]) <= Lev(s, lits[p])
  {
    p := i;
    for j := i + 1 to lits.Length
      invariant i <= p < j && forall k | i <= k < j :: Lev(s, lits[k]) <= Lev(s, lits[p])
    {
      if Lev(s, lits[j]) > Lev(s, lits[p]) {
        p := j;
        if Lev(s, lits[p]) == res {
          return;
        }
      }
    }
  }

  /** Two literals of the highest levels come first, where they are watched. */
  method MoveHighest(s: State, lits: array<Lit>, res: nat)
    requires forall k | 0 <= k < lits.Length :: Lev(s, lits[k]) <= res
    modifies lits
    ensures multiset(lits[..]) == multiset(old(lits[..]))
    ensures forall i, k | 0 <= i < 2 && i < k < lits.Length :: Lev(s, lits[k]) <= Lev(s, lits[i])
  {
    hide Ordered, Lev;
    OrderedStart(s, lits[..], res);
    for i := 0 to if lits.Length < 2 then lits.Length else 2
      invariant SameMembers(old(lits[..]), lits[..]) && Ordered(s, lits[..], i, res)
    {
      MoveNext(s, lits, i, res);
    }
    OrderedEnd(s, lits[..], res);
  }

  ghost predicate SameMembers(a: Clause, b: Clause) {
    multiset(b) == multiset(a)
  }

  method MoveNext(s: State, lits: array<Lit>, i: nat, res: nat)
    requires Ordered(s, lits[..], i, res) && i < lits.Length
    modifies lits
    ensures SameMembers(old(lits[..]), lits[..]) && Ordered(s, lits[..], i + 1, res)
  {
    hide Ordered, SameMembers, Lev;
    ghost var before := lits[..];
    OrderedBelow(s, before, i, res);
    var p := FindHighest(s, lits, i, res);
    assert forall k | 0 <= k < |before| :: before[k] == lits[k];
    lits[i], lits[p] := lits[p], lits[i];
    assert lits[..] == before[i := before[p]][p := before[i]];
    OrderedSwap(s, before, lits[..], i, p, res);
  }

  /** The first n literals have the highest levels. */
  ghost predicate Ordered(s: State, c: Clause, n: nat, res: nat) {
    && (forall k | 0 <= k < |c| :: Lev(s, c[k]) <= res)
    && forall i, k | 0 <= i < n && i < k < |c| :: Lev(s, c[k]) <= Lev(s, c[i])
  }

  lemma OrderedStart(s: State, c: Clause, res: nat)
    requires forall k | 0 <= k < |c| :: Lev(s, c[k]) <= res
    ensures Ordered(s, c, 0, res)
  {
  }

  lemma OrderedBelow(s: State, c: Clause, n: nat, res: nat)
    requires Ordered(s, c, n, res)
    ensures forall k | 0 <= k < |c| :: Lev(s, c[k]) <= res
  {
  }

  lemma OrderedSwap(s: State, c: Clause, c': Clause, i: nat, p: nat, res: nat)
    requires Ordered(s, c, i, res) && i <= p < |c| && c' == c[i := c[p]][p := c[i]]
    requires forall k | i <= k < |c| :: Lev(s, c[k]) <= Lev(s, c[p])
    ensures Ordered(s, c', i + 1, res) && SameMembers(c, c')
  {
    hide Lev;
    forall a, k | 0 <= a < i + 1 && a < k < |c'| ensures Lev(s, c'[k]) <= Lev(s, c'[a]) {
      assert a < i ==> c'[a] == c[a];
      assert c'[k] == if k == p then c[i] else if k == i then c[p] else c[k];
    }
  }

  lemma OrderedEnd(s: State, c: Clause, res: nat)
    requires Ordered(s, c, if |c| < 2 then |c| else 2, res)
    ensures forall i, k | 0 <= i < 2 && i < k < |c| :: Lev(s, c[k]) <= Lev(s, c[i])
  {
  }

  /** `find_conflict_level`, which also reorders the conflict in place. */
  method FindConflictLevel(ghost f: set<Clause>, s: State, conflict: array<Lit>) returns (level: nat, forced: Option<Lit>)
    requires TrailOk(f, s) && forall l | l in conflict[..] :: FalseIn(s, l)
    modifies conflict
    ensures multiset(conflict[..]) == multiset(old(conflict[..])) && forall l :: l in conflict[..] <==> l in old(conflict[..])
    ensures forall i, k | 0 <= i < 2 && i < k < conflict.Length :: Lev(s, conflict[k]) <= Lev(s, conflict[i])
    ensures level <= Level(s) && forall l | l in conflict[..] :: Lev(s, l) <= level
    ensures level > 0 ==> exists l | l in conflict[..] :: Lev(s, l) == level
    ensures forced.Some? ==> level > 0 && forced.value in conflict[..] && Lev(s, forced.value) == level
    ensures forced.Some? ==> forall l | l in conflict[..] && l != forced.value :: Lev(s, l) < level
    ensures forced.None? && level > 0 ==> TwoHighest(s, old(conflict[..]), level)
  {
    hide TrailOk, FalseIn, Lev;
    level, forced := ConflictLevel(f, s, conflict[..]);
    assert forall k | 0 <= k < conflict.Length :: conflict[k] in conflict[..];
    MoveHighest(s, conflict, level);
    SameLits(old(conflict[..]), conflict[..]);
  }

  lemma SameLits(a: Clause, b: Clause)
    requires multiset(a) == multiset(b)
    ensures forall l :: l in b <==> l in a
  {
    forall l ensures l in b <==> l in a {
      assert l in multiset(a) <==> l in multiset(b);
    }
  }

  /** A literal above the new level becomes unassigned. */
  lemma DroppedUnassigned(f: set<Clause>, s: State, s': State, level: nat, l: Lit)
    requires TrailOk(f, s) && Backtracked(s, s', level) && FalseIn(s, l) && Lev(s, l) > level
    ensures Unassigned(s', l)
  {
    var idx := Indices(s, level, |s.trail|);
    hide Indices;
    forall k | 0 <= k < |s'.trail| ensures s'.trail[k].v != l.v {
      var p := idx[k];
      assert s'.trail[k] == s.trail[p];
      if s.trail[p].v == l.v {
        TrailDistinct(f, s, p, Pos(s, l));
      }
    }
  }

  /** After the jump the clause forces its only literal above the new level. */
  lemma DrivingClause(f: set<Clause>, s: State, s': State, level: nat, c: Clause, lit: Lit)
    requires TrailOk(f, s) && Backtracked(s, s', level) && lit in c && Lev(s, lit) > level
    requires forall l | l in c :: FalseIn(s, l)
    requires forall l | l in c && l != lit :: Lev(s, l) <= level
    ensures Unassigned(s', lit) && forall l | l in c && l != lit :: FalseIn(s', l) && Lev(s', l) == Lev(s, l)
  {
    DroppedUnassigned(f, s, s', level, lit);
    hide TrailOk, Indices;
    forall l | l in c && l != lit ensures FalseIn(s', l) && Lev(s', l) == Lev(s, l) {
      StillFalse(f, s, s', level, l);
    }
  }

  lemma RootConflict(f: set<Clause>, s: State, conflict: Clause)
    requires TrailOk(f, s) && Entails(f, conflict) && forall l | l in conflict :: FalseIn(s, l) && Lev(s, l) == 0
    ensures Unsat(f, {})
  {
    forall m: Assignment ensures !Sat(m, f) {
      if Sat(m, f) {
        var l :| l in conflict && True(m, l);
        RootTrue(f, s, l, m);
      }
    }
  }

  /** The jump level: the highest level below the conflict level in the clause. */
  method JumpLevel(s: State, clause: Clause, lit: Lit) returns (jump: nat)
    ensures forall l | l in clause && l != lit :: Lev(s, l) <= jump
    ensures jump > 0 ==> exists l | l in clause && l != lit :: Lev(s, l) == jump
  {
    jump := 0;
    for k := 0 to |clause|
      invariant forall x | 0 <= x < k && clause[x] != lit :: Lev(s, clause[x]) <= jump
      invariant jump > 0 ==> exists l | l in clause && l != lit :: Lev(s, l) == jump
    {
      if clause[k] != lit && Lev(s, clause[k]) > jump {
        jump := Lev(s, clause[k]);
      }
    }
  }

  datatype Outcome = Unsatisfiable | Driven(lit: Lit, clause: Clause)

  /**
   `analyze`: either the formula is unsatisfiable, or the search continues on a lower level with a
   literal forced by a clause that follows from the formula. Without chronological backtracking a
   conflict is found on the current level.
   */
  method Analyze(t: Internal, conflict: array<Lit>) returns (res: Outcome, ghost mid: State)
    requires t.Valid() && Entails(t.f, conflict[..]) && forall l | l in conflict[..] :: FalseIn(t.S(), l)
    requires !t.opts.chrono && Level(t.S()) > 0 ==> exists l | l in conflict[..] :: Lev(t.S(), l) == Level(t.S())
    modifies conflict, t`trail, t`vars, t`control, t`vals, t`propagated
    ensures t.Valid() && multiset(conflict[..]) == multiset(old(conflict[..]))
    ensures res.Unsatisfiable? ==> Unsat(t.f, {})
    ensures res.Driven? ==> Level(t.S()) < Level(old(t.S())) && Entails(t.f, res.clause) && res.lit in res.clause
    ensures res.Driven? ==> t.trail != [] && t.trail[|t.trail| - 1] == res.lit && FalseIn(old(t.S()), res.lit)
    ensures res.Driven? ==> forall l | l in res.clause && l != res.lit :: FalseIn(t.S(), l)
    ensures res.Driven? ==> Level(mid) >= 0 && Backtracked(old(t.S()), mid, Level(mid))
    ensures res.Driven? ==>
              (res.clause == conflict[..] && forall l | l in res.clause && l != res.lit :: Lev(old(t.S()), l) < Lev(old(t.S()), res.lit))
              || FirstUnique(mid, conflict[..], res.clause, Neg(res.lit))
  {
    hide TrailOk, AssumedOk, Entails, Backtracked, FalseIn, Lev, Unassigned, FirstUnique;
    ghost var s0 := t.S();
    mid := s0;
    BacktrackedSelf(t.f, s0);
    var level := |t.control| - 1;
    if t.opts.chrono {
      var forced;
      level, forced := FindConflictLevel(t.f, t.S(), conflict);
      SameEntails(t.f, old(conflict[..]), conflict[..]);
      if forced.Some? {
        var c := conflict[..];
        t.Backtrack(level - 1);
        BacktrackedLevel(s0, t.S(), level - 1);
        DrivingClause(t.f, s0, t.S(), level - 1, c, forced.value);
        Drive(t, forced.value, c);
        return Driven(forced.value, c), mid;
      }
      t.Backtrack(level);
    } else {
      ConflictBelow(t.f, s0, conflict[..]);
    }
    ghost var s1 := t.S();
    mid := s1;
    BacktrackedLevel(s0, s1, level);
    KeptConflict(t.f, s0, s1, level, conflict[..]);
    if level == 0 {
      RootConflict(t.f, s1, conflict[..]);
      return Unsatisfiable, mid;
    }
    res := LearnAndDrive(t, conflict[..], level, s0);
  }

  /** From the conflict on the current level to the driving clause. */
  method LearnAndDrive(t: Internal, conflict: Clause, level: nat, ghost s0: State) returns (res: Outcome)
    requires t.Valid() && Entails(t.f, conflict) && (forall l | l in conflict :: FalseIn(t.S(), l)) && 0 < level == Level(t.S())
    requires TrailOk(t.f, s0) && Backtracked(s0, t.S(), level) && exists l | l in conflict :: Lev(t.S(), l) == level
    modifies t`trail, t`vars, t`control, t`vals, t`propagated
    ensures t.Valid() && res.Driven? && Level(t.S()) < level && Entails(t.f, res.clause) && res.lit in res.clause
    ensures t.trail != [] && t.trail[|t.trail| - 1] == res.lit && FalseIn(s0, res.lit)
    ensures forall l | l in res.clause && l != res.lit :: FalseIn(t.S(), l)
    ensures FirstUnique(old(t.S()), conflict, res.clause, Neg(res.lit))
  {
    hide FirstUnique, TrailOk, AssumedOk, Entails, Backtracked, FalseIn, Lev, Unassigned, Learned, Minimized;
    ghost var s1 := t.S();
    var clause, uip := FirstUip(t.f, t.S(), conflict);
    LearnedFacts(t.f, s0, s1, level, clause, uip);
    if |clause| > 1 && t.opts.minimize {
      ghost var learned := clause;
      LearnedLearnt(t.f, s1, clause, uip);
      clause := MinimizeClause(t.f, t.S(), clause, t.opts.minimizeDepth);
      MinimizedPart(t.f, s1, t.opts.minimizeDepth, learned, clause);
      FirstUniquePart(s1, conflict, learned, clause, uip);
    }
    assert Neg(Neg(uip)) == uip;
    var jump := JumpLevel(t.S(), clause, Neg(uip));
    var newLevel: nat :| jump <= newLevel < level && (!t.opts.chrono ==> newLevel == jump);
    t.Backtrack(newLevel);
    BacktrackedLevel(s1, t.S(), newLevel);
    DrivingClause(t.f, s1, t.S(), newLevel, clause, Neg(uip));
    Drive(t, Neg(uip), clause);
    return Driven(Neg(uip), clause);
  }

  lemma FirstUniquePart(s: State, conflict: Clause, clause: Clause, r: Clause, uip: Lit)
    requires FirstUnique(s, conflict, clause, uip) && forall l | l in r :: l in clause
    ensures FirstUnique(s, conflict, r, uip)
  {
    hide Way, Avoidable, Source;
  }

  lemma LearnedLearnt(f: set<Clause>, s: State, clause: Clause, uip: Lit)
    requires Learned(f, s, clause, uip)
    ensures Learnt(s, clause)
  {
    hide Entails, FalseIn, Lev;
  }

  lemma MinimizedPart(f: set<Clause>, s: State, limit: nat, clause: Clause, r: Clause)
    requires TrailOk(f, s) && Minimized(f, s, limit, clause, r)
    ensures forall l | l in r :: l in clause
  {
    hide TrailOk;
  }

  lemma SameEntails(f: set<Clause>, a: Clause, b: Clause)
    requires Entails(f, a) && forall l :: l in b <==> l in a
    ensures Entails(f, b)
  {
    forall m: Assignment | Sat(m, f) ensures SatClause(m, b) {
      var l :| l in a && True(m, l);
    }
  }

  lemma ConflictBelow(f: set<Clause>, s: State, conflict: Clause)
    requires TrailOk(f, s) && forall l | l in conflict :: FalseIn(s, l)
    ensures forall l | l in conflict :: Lev(s, l) <= Level(s)
  {
    forall l | l in conflict ensures Lev(s, l) <= Level(s) {
      FalseLevel(f, s, l);
    }
  }

  lemma BacktrackedLevel(s: State, s': State, level: nat)
    requires Backtracked(s, s', level)
    ensures Level(s') == level
  {
    hide Indices;
  }

  lemma KeptConflict(f: set<Clause>, s: State, s': State, level: nat, conflict: Clause)
    requires TrailOk(f, s) && Backtracked(s, s', level) && forall l | l in conflict :: FalseIn(s, l) && Lev(s, l) <= level
    ensures forall l | l in conflict :: FalseIn(s', l) && Lev(s', l) == Lev(s, l)
  {
    hide TrailOk, Indices;
    forall l | l in conflict ensures FalseIn(s', l) && Lev(s', l) == Lev(s, l) {
      StillFalse(f, s, s', level, l);
    }
  }

  lemma LearnedFacts(f: set<Clause>, s0: State, s: State, level: nat, clause: Clause, uip: Lit)
    requires TrailOk(f, s0) && Backtracked(s0, s, level) && Learned(f, s, clause, uip) && Level(s) == level
    ensures Entails(f, clause) && Neg(uip) in clause && Lev(s, Neg(uip)) == level && FalseIn(s0, Neg(uip))
    ensures forall l | l in clause :: FalseIn(s, l)
    ensures forall l | l in clause && l != Neg(uip) :: Lev(s, l) < level
  {
    var idx := Indices(s0, level, |s0.trail|);
    var k :| 0 <= k < |s.trail| && s.trail[k] == uip;
    assert s0.trail[idx[k]] == uip;
    assert AtOk(f, s0, idx[k]);
    hide Indices, TrailOk, Entails;
  }

  /** The forced literal is assigned; a learned unit without a reason. */
  method Drive(t: Internal, lit: Lit, clause: Clause)
    requires t.Valid() && Unassigned(t.S(), lit) && lit in clause && Entails(t.f, clause)
    requires forall l | l in clause && l != lit :: FalseIn(t.S(), l)
    requires !t.opts.chrono && Level(t.S()) > 0 ==> exists l | l in clause && l != lit :: Lev(t.S(), l) == Level(t.S())
    modifies t`trail, t`vars, t`vals
    ensures t.Valid() && t.trail == old(t.trail) + [lit] && forall l | l in clause && l != lit :: FalseIn(t.S(), l)
  {
    hide TrailOk, AssumedOk, Entails;
    ghost var s := t.S();
    if |clause| == 1 {
      assert clause == [lit];
      t.AssignUnit(lit);
    } else {
      var _ := t.SearchAssign(lit, clause);
    }
    forall l | l in clause && l != lit ensures FalseIn(t.S(), l) {
      UnassignedAt(s, lit, Pos(s, l));
    }
  }
}
