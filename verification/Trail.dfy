/**
 The trail of the CDCL search. With chronological backtracking literals of
 lower levels may follow literals of higher levels, but a reason always
 precedes its literal.
 */
module Trail {
  import opened Cnf

  datatype Info = Info(level: nat, reason: Option<Clause>, pos: nat)

  /** The infos of unassigned variables are stale; control[k] is the trail height before level k. */
  datatype State = State(trail: seq<Lit>, vars: map<nat, Info>, control: seq<nat>)

  function Level(s: State): (r: int) {
    |s.control| - 1
  }

  /** The literal is false under the trail. */
  predicate FalseIn(s: State, l: Lit) {
    l.v in s.vars && s.vars[l.v].pos < |s.trail| && s.trail[s.vars[l.v].pos] == Neg(l)
  }

  function Lev(s: State, l: Lit): (r: nat) {
    if l.v in s.vars then s.vars[l.v].level else 0
  }

  function Pos(s: State, l: Lit): (r: nat) {
    if l.v in s.vars then s.vars[l.v].pos else 0
  }

  function Reason(s: State, l: Lit): (r: Option<Clause>) {
    if l.v in s.vars then s.vars[l.v].reason else None
  }

  /** The clause forces l: it follows, and its other literals were false before, one of them on the level of l and none higher. */
  ghost predicate Forces(f: set<Clause>, s: State, l: Lit, c: Clause) {
    && l in c && Entails(f, c)
    && (forall o | o in c && o != l :: FalseIn(s, o) && Pos(s, o) < Pos(s, l) && Lev(s, o) <= Lev(s, l))
    && exists o | o in c && o != l :: Lev(s, o) == Lev(s, l)
  }

  /** A decision is the first literal of its level. */
  ghost predicate FirstOnLevel(s: State, i: nat)
    requires i < |s.trail|
  {
    forall k | 0 <= k < i :: Lev(s, s.trail[k]) != Lev(s, s.trail[i])
  }

  ghost predicate AtOk(f: set<Clause>, s: State, i: nat)
    requires i < |s.trail|
  {
    var l := s.trail[i];
    && l.v in s.vars && Pos(s, l) == i && Lev(s, l) <= Level(s)
    && (Lev(s, l) == 0 ==> Reason(s, l).None? && Entails(f, [l]))
    && (Reason(s, l).Some? ==> Forces(f, s, l, Reason(s, l).value))
    && (Lev(s, l) > 0 && Reason(s, l).None? ==> FirstOnLevel(s, i))
  }

  /** What was assigned before a level began has a lower level. */
  ghost predicate ControlOk(s: State) {
    && |s.control| > 0
    && (forall k | 0 <= k < |s.control| :: s.control[k] <= |s.trail|)
    && (forall j, k | 0 <= j < k < |s.control| :: s.control[j] <= s.control[k])
    && (forall k, i | 1 <= k < |s.control| && 0 <= i < s.control[k] :: Lev(s, s.trail[i]) < k)
  }

  ghost predicate TrailOk(f: set<Clause>, s: State) {
    ControlOk(s) && forall i | 0 <= i < |s.trail| :: AtOk(f, s, i)
  }

  /** No variable is assigned twice. */
  lemma TrailDistinct(f: set<Clause>, s: State, i: nat, j: nat)
    requires TrailOk(f, s) && i < |s.trail| && j < |s.trail| && s.trail[i].v == s.trail[j].v
    ensures i == j
  {
    assert AtOk(f, s, i) && AtOk(f, s, j);
  }

  // ----- backtracking -----

  /** The positions of the first n that a backtrack to this level keeps. */
  function Indices(s: State, level: nat, n: nat): (r: seq<nat>)
    requires n <= |s.trail|
    ensures |r| <= n && forall k | 0 <= k < |r| :: r[k] < n && Lev(s, s.trail[r[k]]) <= level
  {
    if n == 0 then []
    else
      var r := Indices(s, level, n - 1);
      if Lev(s, s.trail[n - 1]) <= level then r + [n - 1] else r
  }

  lemma {:induction false} IndicesOrdered(s: State, level: nat, n: nat)
    requires n <= |s.trail|
    ensures forall j, k | 0 <= j < k < |Indices(s, level, n)| :: Indices(s, level, n)[j] < Indices(s, level, n)[k]
  {
    if n > 0 {
      IndicesOrdered(s, level, n - 1);
    }
  }

  /** The new position of a literal that is kept. */
  lemma {:induction false} IndicesComplete(s: State, level: nat, n: nat, i: nat) returns (k: nat)
    requires i < n <= |s.trail| && Lev(s, s.trail[i]) <= level
    ensures k < |Indices(s, level, n)| && Indices(s, level, n)[k] == i
  {
    if i == n - 1 {
      k := |Indices(s, level, n)| - 1;
    } else {
      k := IndicesComplete(s, level, n - 1, i);
    }
  }

  /** While all levels are low, nothing is dropped. */
  lemma {:induction false} IndicesPrefix(s: State, level: nat, n: nat)
    requires n <= |s.trail| && forall i | 0 <= i < n :: Lev(s, s.trail[i]) <= level
    ensures |Indices(s, level, n)| == n && forall k | 0 <= k < n :: Indices(s, level, n)[k] == k
  {
    if n > 0 {
      IndicesPrefix(s, level, n - 1);
    }
  }

  lemma {:induction false} IndicesStart(s: State, level: nat, n: nat, m: nat)
    requires n <= m <= |s.trail|
    ensures Indices(s, level, n) <= Indices(s, level, m)
  {
    if n < m {
      IndicesStart(s, level, n, m - 1);
    }
  }

  /** s' keeps exactly the literals of s up to this level, in order. */
  ghost predicate Backtracked(s: State, s': State, level: nat) {
    && level < |s.control| && s'.control == s.control[..level + 1]
    && var idx := Indices(s, level, |s.trail|);
    && |s'.trail| == |idx|
    && (forall k | 0 <= k < |idx| :: s'.trail[k] == s.trail[idx[k]])
    && (forall k | 0 <= k < |idx| :: Pos(s', s'.trail[k]) == k)
    && (forall l: Lit :: Lev(s', l) == Lev(s, l) && Reason(s', l) == Reason(s, l))
    && s'.vars.Keys == s.vars.Keys
  }

  /** A kept literal that was false is still false, and the order stays. */
  lemma StillFalse(f: set<Clause>, s: State, s': State, level: nat, o: Lit)
    requires TrailOk(f, s) && Backtracked(s, s', level) && FalseIn(s, o) && Lev(s, o) <= level
    ensures FalseIn(s', o) && Pos(s', o) < |s'.trail| && Indices(s, level, |s.trail|)[Pos(s', o)] == Pos(s, o)
  {
    var p := Pos(s, o);
    assert Lev(s, s.trail[p]) == Lev(s, o);
    var k := IndicesComplete(s, level, |s.trail|, p);
    assert s'.trail[k] == Neg(o);
    assert Pos(s', s'.trail[k]) == k == Pos(s', o);
  }

  lemma BacktrackedForces(f: set<Clause>, s: State, s': State, level: nat, k: nat)
    requires TrailOk(f, s) && Backtracked(s, s', level) && k < |s'.trail| && Reason(s', s'.trail[k]).Some?
    ensures Forces(f, s', s'.trail[k], Reason(s', s'.trail[k]).value)
  {
    var l := s'.trail[k];
    var idx := Indices(s, level, |s.trail|);
    assert AtOk(f, s, idx[k]);
    var c := Reason(s, l).value;
    hide Indices, Entails, TrailOk;
    forall o | o in c && o != l ensures FalseIn(s', o) && Pos(s', o) < Pos(s', l) && Lev(s', o) <= Lev(s', l) {
      StillFalse(f, s, s', level, o);
      IndicesOrdered(s, level, |s.trail|);
      assert idx[Pos(s', o)] < idx[k];
    }
  }

  lemma BacktrackedAt(f: set<Clause>, s: State, s': State, level: nat, k: nat)
    requires TrailOk(f, s) && Backtracked(s, s', level) && k < |s'.trail|
    ensures AtOk(f, s', k)
  {
    var l := s'.trail[k];
    var idx := Indices(s, level, |s.trail|);
    IndicesOrdered(s, level, |s.trail|);
    assert AtOk(f, s, idx[k]);
    if Reason(s', l).Some? {
      BacktrackedForces(f, s, s', level, k);
    } else if Lev(s', l) > 0 {
      assert FirstOnLevel(s, idx[k]);
    }
    hide Forces, Indices, Entails;
  }

  lemma BacktrackedControl(f: set<Clause>, s: State, s': State, level: nat)
    requires TrailOk(f, s) && Backtracked(s, s', level)
    ensures ControlOk(s')
  {
    hide AtOk;
    if level + 1 < |s.control| {
      var n := s.control[level + 1];
      IndicesPrefix(s, level, n);
      IndicesStart(s, level, n, |s.trail|);
    } else {
      IndicesPrefixAll(f, s, level);
    }
    hide Indices;
  }

  lemma IndicesPrefixAll(f: set<Clause>, s: State, level: nat)
    requires TrailOk(f, s) && Level(s) <= level
    ensures |Indices(s, level, |s.trail|)| == |s.trail| && forall k | 0 <= k < |s.trail| :: Indices(s, level, |s.trail|)[k] == k
  {
    forall i | 0 <= i < |s.trail| ensures Lev(s, s.trail[i]) <= level {
      assert AtOk(f, s, i);
    }
    IndicesPrefix(s, level, |s.trail|);
  }

  /** Backtracking keeps the invariant of the trail, even if it is out of order. */
  lemma BacktrackedOk(f: set<Clause>, s: State, s': State, level: nat)
    requires TrailOk(f, s) && Backtracked(s, s', level)
    ensures TrailOk(f, s')
  {
    BacktrackedControl(f, s, s', level);
    hide Backtracked, AtOk, TrailOk, ControlOk;
    forall k | 0 <= k < |s'.trail| ensures AtOk(f, s', k) {
      BacktrackedAt(f, s, s', level, k);
    }
    assert TrailOk(f, s') by {
      TrailOkIntro(f, s');
    }
  }

  lemma TrailOkIntro(f: set<Clause>, s: State)
    requires ControlOk(s) && forall i | 0 <= i < |s.trail| :: AtOk(f, s, i)
    ensures TrailOk(f, s)
  {
  }

  // ----- assigning -----

  function Assigned(s: State, l: Lit, level: nat, reason: Option<Clause>): (r: State) {
    s.(trail := s.trail + [l], vars := s.vars[l.v := Info(level, reason, |s.trail|)])
  }

  predicate Unassigned(s: State, l: Lit) {
    l !in s.trail && Neg(l) !in s.trail
  }

  lemma UnassignedAt(s: State, l: Lit, i: nat)
    requires Unassigned(s, l) && i < |s.trail|
    ensures s.trail[i].v != l.v
  {
    var t := s.trail[i];
    assert t in s.trail;
    assert t.v == l.v ==> t == l || t == Neg(l);
  }

  lemma AssignedSame(f: set<Clause>, s: State, l: Lit, level: nat, reason: Option<Clause>, i: nat)
    requires TrailOk(f, s) && Unassigned(s, l) && i < |s.trail|
    ensures AtOk(f, Assigned(s, l, level, reason), i)
  {
    var s' := Assigned(s, l, level, reason);
    var t := s.trail[i];
    assert AtOk(f, s, i);
    assert forall k | 0 <= k < |s.trail| :: s.trail[k].v != l.v by {
      forall k | 0 <= k < |s.trail| ensures s.trail[k].v != l.v {
        UnassignedAt(s, l, k);
      }
    }
    if Reason(s, t).Some? {
      var c := Reason(s, t).value;
      forall o | o in c && o != t ensures FalseIn(s', o) && Pos(s', o) < Pos(s', t) && Lev(s', o) <= Lev(s', t) {
        assert s.trail[Pos(s, o)].v == o.v;
      }
      assert Forces(f, s', t, c);
    }
    hide Forces, Entails;
  }

  /** Assigning a literal with its reason or its level keeps the invariant. */
  lemma AssignedOk(f: set<Clause>, s: State, l: Lit, level: nat, reason: Option<Clause>)
    requires TrailOk(f, s) && Unassigned(s, l) && level <= Level(s)
    requires level == 0 ==> reason.None? && Entails(f, [l])
    requires reason.Some? ==> l in reason.value && Entails(f, reason.value)
    requires reason.Some? ==> forall o | o in reason.value && o != l :: FalseIn(s, o) && Lev(s, o) <= level
    requires reason.Some? ==> exists o | o in reason.value && o != l :: Lev(s, o) == level
    requires level > 0 && reason.None? ==> forall i | 0 <= i < |s.trail| :: Lev(s, s.trail[i]) != level
    ensures TrailOk(f, Assigned(s, l, level, reason))
  {
    var s' := Assigned(s, l, level, reason);
    var n := |s.trail|;
    hide Entails;
    assert forall k | 0 <= k < n :: s.trail[k].v != l.v by {
      forall k | 0 <= k < n ensures s.trail[k].v != l.v {
        UnassignedAt(s, l, k);
      }
    }
    assert AtOk(f, s', n) by {
      if reason.Some? {
        forall o | o in reason.value && o != l ensures FalseIn(s', o) && Pos(s', o) < n && Lev(s', o) <= level {
          assert s.trail[Pos(s, o)].v == o.v;
        }
        assert Forces(f, s', l, reason.value);
      }
    }
    forall i | 0 <= i < |s'.trail| ensures AtOk(f, s', i) {
      if i < n {
        AssignedSame(f, s, l, level, reason, i);
      }
    }
    hide AtOk;
    assert ControlOk(s');
  }

  /** A new level without literals. */
  lemma PushedOk(f: set<Clause>, s: State)
    requires TrailOk(f, s)
    ensures TrailOk(f, s.(control := s.control + [|s.trail|]))
    ensures forall i | 0 <= i < |s.trail| :: Lev(s, s.trail[i]) <= Level(s)
  {
    var s' := s.(control := s.control + [|s.trail|]);
    forall i | 0 <= i < |s.trail| ensures AtOk(f, s', i) && Lev(s, s.trail[i]) <= Level(s) {
      assert AtOk(f, s, i);
      if Reason(s, s.trail[i]).Some? {
        assert Forces(f, s', s.trail[i], Reason(s, s.trail[i]).value);
      }
    }
  }

  // ----- assumptions -----

  /** The decisions of the first levels are the assumptions. */
  ghost predicate AssumedOk(s: State, assumptions: seq<Lit>) {
    forall i | 0 <= i < |s.trail| ::
      Reason(s, s.trail[i]).None? && 1 <= Lev(s, s.trail[i]) <= |assumptions| ==>
      s.trail[i] == assumptions[Lev(s, s.trail[i]) - 1]
  }

  lemma BacktrackedAssumed(s: State, s': State, level: nat, assumptions: seq<Lit>)
    requires Backtracked(s, s', level) && AssumedOk(s, assumptions)
    ensures AssumedOk(s', assumptions)
  {
    hide Indices;
  }

  lemma AssignedAssumed(s: State, l: Lit, level: nat, reason: Option<Clause>, assumptions: seq<Lit>)
    requires AssumedOk(s, assumptions) && Unassigned(s, l)
    requires reason.None? && 1 <= level <= |assumptions| ==> l == assumptions[level - 1]
    ensures AssumedOk(Assigned(s, l, level, reason), assumptions)
  {
    var s' := Assigned(s, l, level, reason);
    forall i | 0 <= i < |s.trail| ensures Lev(s', s.trail[i]) == Lev(s, s.trail[i]) && Reason(s', s.trail[i]) == Reason(s, s.trail[i]) {
      UnassignedAt(s, l, i);
    }
  }

  datatype Options = Options(chrono: bool, minimize: bool, minimizeDepth: nat)

  datatype Decision = Falsified | ConstraintFailed | Continue

  class Internal {
    ghost const f: set<Clause>
    const assumptions: seq<Lit>
    const constraint: Clause
    const opts: Options
    var trail: seq<Lit>
    var vars: map<nat, Info>
    var control: seq<nat>
    var vals: set<Lit>
    var propagated: nat

    function S(): (s: State)
      reads this
    {
      State(trail, vars, control)
    }

    ghost predicate Valid()
      reads this
    {
      && TrailOk(f, S()) && AssumedOk(S(), assumptions)
      && vals == ToSet(trail) && propagated <= |trail| && |control| > 0
    }

    constructor (ghost f: set<Clause>, assumptions: seq<Lit>, constraint: Clause, opts: Options)
      ensures Valid() && this.f == f && this.assumptions == assumptions && this.constraint == constraint && trail == []
      ensures this.opts == opts
    {
      this.f, this.assumptions, this.constraint, this.opts := f, assumptions, constraint, opts;
      trail, vars, control, vals, propagated := [], map[], [0], {}, 0;
    }

    /**
     `backtrack`: compacts the trail in place and keeps exactly the literals up to the new level,
     in their order.
     */
    method Backtrack(level: nat)
      requires Valid() && level <= Level(S())
      modifies this`trail, this`vars, this`control, this`vals, this`propagated
      ensures Valid() && Backtracked(old(S()), S(), level)
    {
      hide TrailOk, AssumedOk, Indices, Compacted, Backtracked, Front;
      ghost var s0 := S();
      if level == |control| - 1 {
        BacktrackedSelf(f, s0);
        return;
      }
      BacktrackStart(f, s0, level);
      var height := control[level + 1];
      var i, j := height, height;
      FrontEnds(trail, i);
      while i < |trail|
        invariant height <= j <= i <= |trail| == |s0.trail| && control == s0.control && propagated == old(propagated)
        invariant Compacted(s0, level, S(), i, j) && vals == Front(trail, i, j)
      {
        var lit := trail[i];
        CompactedFacts(f, s0, level, S(), i, j);
        i := i + 1;
        if vars[lit.v].level > level {
          CompactDrop(f, s0, level, S(), i - 1, j);
          vals := vals - {lit};
        } else {
          CompactKeep(f, s0, level, S(), i - 1, j);
          trail := trail[j := lit];
          vars := vars[lit.v := vars[lit.v].(pos := j)];
          j := j + 1;
        }
      }
      CompactedEnd(s0, level, S(), j);
      FrontEnds(trail, j);
      trail := trail[..j];
      if propagated > height {
        propagated := height;
      }
      control := control[..level + 1];
      BacktrackedOk(f, s0, S(), level);
      BacktrackedAssumed(s0, S(), level, assumptions);
    }

    /** `assignment_level`: the highest level of the other literals. */
    method AssignmentLevel(lit: Lit, reason: Clause) returns (r: nat)
      requires Valid() && forall o | o in reason && o != lit :: FalseIn(S(), o)
      ensures r <= Level(S()) && forall o | o in reason && o != lit :: Lev(S(), o) <= r
      ensures r > 0 ==> exists o | o in reason && o != lit :: Lev(S(), o) == r
    {
      hide AssumedOk, Entails;
      r := 0;
      for k := 0 to |reason|
        invariant r <= Level(S()) && forall x | 0 <= x < k && reason[x] != lit :: Lev(S(), reason[x]) <= r
        invariant r > 0 ==> exists o | o in reason && o != lit :: Lev(S(), o) == r
      {
        var o := reason[k];
        if o != lit {
          FalseLevel(f, S(), o);
          if Lev(S(), o) > r {
            r := Lev(S(), o);
          }
        }
      }
    }

    /**
     `search_assign` with a reason clause; on level 0 the literal becomes a unit without one. Without
     chronological backtracking the reason is found on the current level.
     */
    method SearchAssign(lit: Lit, reason: Clause) returns (level: nat)
      requires Valid() && Unassigned(S(), lit) && lit in reason && Entails(f, reason)
      requires forall o | o in reason && o != lit :: FalseIn(S(), o)
      requires !opts.chrono && Level(S()) > 0 ==> exists o | o in reason && o != lit :: Lev(S(), o) == Level(S())
      modifies this`trail, this`vars, this`vals
      ensures Valid() && S() == Assigned(old(S()), lit, level, if level == 0 then None else Some(reason))
      ensures forall o | o in reason && o != lit :: Lev(old(S()), o) <= level
      ensures level > 0 ==> exists o | o in reason && o != lit :: Lev(old(S()), o) == level
    {
      hide TrailOk, AssumedOk, Entails, Unassigned, FalseIn, Lev;
      if opts.chrono {
        level := AssignmentLevel(lit, reason);
      } else {
        level := |control| - 1;
        forall o | o in reason && o != lit ensures Lev(S(), o) <= level {
          FalseLevel(f, S(), o);
        }
      }
      var r := if level == 0 then None else Some(reason);
      if level == 0 {
        UnitFollows(f, S(), lit, reason);
      }
      AssignedOk(f, S(), lit, level, r);
      AssignedAssumed(S(), lit, level, r, assumptions);
      vars := vars[lit.v := Info(level, r, |trail|)];
      vals := vals + {lit};
      trail := trail + [lit];
    }

    /** `search_assign` of a unit clause. */
    method AssignUnit(lit: Lit)
      requires Valid() && Unassigned(S(), lit) && Entails(f, [lit])
      modifies this`trail, this`vars, this`vals
      ensures Valid() && S() == Assigned(old(S()), lit, 0, None)
    {
      hide TrailOk, AssumedOk, Entails, Unassigned;
      AssignedOk(f, S(), lit, 0, None);
      AssignedAssumed(S(), lit, 0, None, assumptions);
      vars := vars[lit.v := Info(0, None, |trail|)];
      vals := vals + {lit};
      trail := trail + [lit];
    }

    /** `search_assume_decision`. */
    method AssumeDecision(lit: Lit)
      requires Valid() && Unassigned(S(), lit)
      requires Level(S()) < |assumptions| ==> lit == assumptions[Level(S())]
      modifies this`trail, this`vars, this`vals, this`control
      ensures Valid() && Level(S()) == Level(old(S())) + 1 && trail == old(trail) + [lit]
      ensures Lev(S(), lit) == Level(S()) && Reason(S(), lit) == None
    {
      PushLevel();
      hide TrailOk, AssumedOk, Entails;
      var level := |control| - 1;
      AssignedOk(f, S(), lit, level, None);
      AssignedAssumed(S(), lit, level, None, assumptions);
      vars := vars[lit.v := Info(level, None, |trail|)];
      vals := vals + {lit};
      trail := trail + [lit];
    }

    method PushLevel()
      requires Valid()
      modifies this`control
      ensures Valid() && S() == old(S()).(control := old(control) + [|trail|])
      ensures forall i | 0 <= i < |trail| :: Lev(S(), trail[i]) < Level(S())
    {
      PushedOk(f, S());
      hide TrailOk;
      control := control + [|trail|];
    }

    /** `decide`: assumptions first, then the constraint, then any unassigned literal. */
    method Decide(choice: Lit) returns (res: Decision)
      requires Valid() && Unassigned(S(), choice)
      modifies this`trail, this`vars, this`vals, this`control
      ensures Valid()
      ensures res == Falsified <==> Level(old(S())) < |assumptions| && Neg(assumptions[Level(old(S()))]) in old(trail)
      ensures res == ConstraintFailed <==>
                Level(old(S())) == |assumptions| && constraint != [] && forall l | l in constraint :: Neg(l) in old(trail)
      ensures if res == Continue then Level(S()) == Level(old(S())) + 1 else S() == old(S())
    {
      hide TrailOk, AssumedOk;
      ghost var s0 := S();
      var level := |control| - 1;
      res := Continue;
      if level < |assumptions| {
        var lit := assumptions[level];
        if Neg(lit) in vals {
          res := Falsified;
        } else if lit in vals {
          PushLevel();
        } else {
          AssumeDecision(lit);
        }
      } else if level == |assumptions| && constraint != [] {
        var satisfied, unassigned := false, None;
        for k := 0 to |constraint|
          invariant satisfied ==> exists l | l in constraint :: l in vals
          invariant !satisfied && unassigned.None? ==> forall x | 0 <= x < k :: Neg(constraint[x]) in vals
          invariant unassigned.Some? ==>
                      unassigned.value in constraint && unassigned.value !in vals && Neg(unassigned.value) !in vals
        {
          if constraint[k] in vals {
            satisfied := true;
            break;
          } else if Neg(constraint[k]) !in vals && unassigned.None? {
            unassigned := Some(constraint[k]);
          }
        }
        if satisfied {
          NotBoth(f, s0, constraint);
          PushLevel();
        } else if unassigned.Some? {
          AssumeDecision(unassigned.value);
        } else {
          res := ConstraintFailed;
        }
      } else {
        AssumeDecision(choice);
      }
    }
  }

  /** A clause with a true literal is not falsified. */
  lemma NotBoth(f: set<Clause>, s: State, c: Clause)
    requires TrailOk(f, s) && exists l | l in c :: l in s.trail
    ensures exists l | l in c :: Neg(l) !in s.trail
  {
    var l :| l in c && l in s.trail;
    var i :| 0 <= i < |s.trail| && s.trail[i] == l;
    assert AtOk(f, s, i);
    forall j | 0 <= j < |s.trail| ensures s.trail[j] != Neg(l) {
      assert AtOk(f, s, j);
    }
  }

  lemma FalseLevel(f: set<Clause>, s: State, o: Lit)
    requires TrailOk(f, s) && FalseIn(s, o)
    ensures Lev(s, o) <= Level(s)
  {
    assert AtOk(f, s, Pos(s, o));
  }

  /** A clause whose other literals are false on level 0 makes its literal a unit. */
  lemma UnitFollows(f: set<Clause>, s: State, lit: Lit, reason: Clause)
    requires TrailOk(f, s) && lit in reason && Entails(f, reason)
    requires forall o | o in reason && o != lit :: FalseIn(s, o) && Lev(s, o) == 0
    ensures Entails(f, [lit])
  {
    forall m: Assignment | Sat(m, f) ensures SatClause(m, [lit]) {
      var l :| l in reason && True(m, l);
      if l != lit {
        RootTrue(f, s, l, m);
      }
      assert lit in [lit];
    }
  }

  /** A literal that is false on level 0 is false in every model. */
  lemma RootTrue(f: set<Clause>, s: State, o: Lit, m: Assignment)
    requires TrailOk(f, s) && FalseIn(s, o) && Lev(s, o) == 0 && Sat(m, f)
    ensures !True(m, o)
  {
    assert AtOk(f, s, Pos(s, o));
    assert SatClause(m, [Neg(o)]);
  }

  ghost function Front(trail: seq<Lit>, i: nat, j: nat): (r: set<Lit>)
    requires j <= i <= |trail|
  {
    ToSet(trail[..j] + trail[i..])
  }

  /** State of the compaction: the first i literals are done, j of them were kept. */
  ghost predicate Compacted(s0: State, level: nat, s: State, i: nat, j: nat) {
    && j <= i <= |s0.trail| == |s.trail|
    && var idx := Indices(s0, level, i);
    && j == |idx| && (forall k | 0 <= k < j :: s.trail[k] == s0.trail[idx[k]] && Pos(s, s.trail[k]) == k)
    && (forall k | i <= k < |s.trail| :: s.trail[k] == s0.trail[k])
    && (forall l: Lit :: Lev(s, l) == Lev(s0, l) && Reason(s, l) == Reason(s0, l))
    && s.vars.Keys == s0.vars.Keys
  }

  lemma FrontEnds(trail: seq<Lit>, j: nat)
    requires j <= |trail|
    ensures Front(trail, j, j) == ToSet(trail) && Front(trail, |trail|, j) == ToSet(trail[..j])
  {
    assert trail[..j] + trail[j..] == trail;
    assert trail[..j] + trail[|trail|..] == trail[..j];
  }

  lemma BacktrackStart(f: set<Clause>, s: State, level: nat)
    requires TrailOk(f, s) && level < Level(s)
    ensures s.control[level + 1] <= |s.trail|
    ensures Compacted(s, level, s, s.control[level + 1], s.control[level + 1])
  {
    var n := s.control[level + 1];
    IndicesPrefix(s, level, n);
    forall k | 0 <= k < n ensures Pos(s, s.trail[k]) == k {
      assert AtOk(f, s, k);
    }
  }

  lemma BacktrackedSelf(f: set<Clause>, s: State)
    requires TrailOk(f, s)
    ensures Backtracked(s, s, Level(s))
  {
    IndicesPrefixAll(f, s, Level(s));
    forall k | 0 <= k < |s.trail| ensures Pos(s, s.trail[k]) == k {
      assert AtOk(f, s, k);
    }
    assert s.control[..Level(s) + 1] == s.control;
  }

  /** The literal at i is on no position that was kept. */
  lemma CompactedFacts(f: set<Clause>, s0: State, level: nat, s: State, i: nat, j: nat)
    requires TrailOk(f, s0) && Compacted(s0, level, s, i, j) && i < |s.trail|
    ensures s.trail[i].v in s.vars && s.vars[s.trail[i].v].level == Lev(s0, s.trail[i])
    ensures forall k | 0 <= k < j :: s.trail[k].v != s.trail[i].v
    ensures forall k | i < k < |s.trail| :: s.trail[k].v != s.trail[i].v
  {
    var l := s.trail[i];
    assert l == s0.trail[i];
    assert AtOk(f, s0, i);
    var idx := Indices(s0, level, i);
    hide AtOk, TrailOk, Indices;
    forall k | 0 <= k < j ensures s.trail[k].v != l.v {
      if s0.trail[idx[k]].v == l.v {
        TrailDistinct(f, s0, idx[k], i);
      }
    }
    forall k | i < k < |s.trail| ensures s.trail[k].v != l.v {
      if s0.trail[k].v == l.v {
        TrailDistinct(f, s0, k, i);
      }
    }
  }

  lemma CompactDrop(f: set<Clause>, s0: State, level: nat, s: State, i: nat, j: nat)
    requires TrailOk(f, s0) && Compacted(s0, level, s, i, j) && i < |s.trail| && Lev(s0, s.trail[i]) > level
    ensures Compacted(s0, level, s, i + 1, j)
    ensures Front(s.trail, i, j) - {s.trail[i]} == Front(s.trail, i + 1, j)
  {
    CompactedFacts(f, s0, level, s, i, j);
    hide TrailOk;
    var l := s.trail[i];
    assert l == s0.trail[i];
    assert s.trail[i..] == [l] + s.trail[i + 1..];
    assert l !in s.trail[..j] + s.trail[i + 1..];
  }

  lemma CompactKeep(f: set<Clause>, s0: State, level: nat, s: State, i: nat, j: nat)
    requires TrailOk(f, s0) && Compacted(s0, level, s, i, j) && i < |s.trail| && Lev(s0, s.trail[i]) <= level
    requires s.trail[i].v in s.vars
    ensures var l := s.trail[i];
            var s' := State(s.trail[j := l], s.vars[l.v := s.vars[l.v].(pos := j)], s.control);
            Compacted(s0, level, s', i + 1, j + 1) && Front(s.trail, i, j) == Front(s'.trail, i + 1, j + 1)
  {
    CompactedFacts(f, s0, level, s, i, j);
    hide TrailOk, Front;
    var l := s.trail[i];
    assert l == s0.trail[i];
    KeepFront(s.trail, i, j);
  }

  lemma KeepFront(trail: seq<Lit>, i: nat, j: nat)
    requires j <= i < |trail|
    ensures Front(trail, i, j) == Front(trail[j := trail[i]], i + 1, j + 1)
  {
    var t := trail[j := trail[i]];
    assert t[..j + 1] + t[i + 1..] == trail[..j] + trail[i..];
  }

  lemma CompactedEnd(s0: State, level: nat, s: State, j: nat)
    requires Compacted(s0, level, s, |s0.trail|, j) && level < |s0.control| && s.control == s0.control
    ensures Backtracked(s0, State(s.trail[..j], s.vars, s.control[..level + 1]), level)
  {
    hide Indices;
  }
}
