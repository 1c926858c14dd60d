/**
 Auxiliary variables and canonical extensions. The solver introduces variables
 that stand for "more than k of these literals are true" (totalizer outputs)
 or "one of these literals is true" (soft clauses, at-most-one contraction).
 The clauses it emits fix each of them in one direction only. The canonical
 extension of an input assignment gives every auxiliary variable exactly the
 value it stands for.
 */
module Definitions {
  import opened Cnf

  datatype Def =
    | MoreThan(lits: seq<Lit>, k: nat)
    | AnyOf(lits: seq<Lit>)

  type Defs = map<nat, Def>

  predicate Holds(e: Assignment, d: Def) {
    match d
    case MoreThan(lits, k) => Count(e, lits) > k
    case AnyOf(lits) => Count(e, lits) > 0
  }

  /** Every auxiliary variable has exactly the value it stands for. */
  ghost predicate Respects(e: Assignment, defs: Defs) {
    forall v | v in defs :: v in e <==> Holds(e, defs[v])
  }

  /** What the emitted clauses alone force. */
  ghost predicate OneWay(m: Assignment, defs: Defs) {
    forall v | v in defs :: OneWayAt(m, v, defs[v])
  }

  predicate OneWayAt(m: Assignment, v: nat, d: Def) {
    match d
    case MoreThan(_, _) => Holds(m, d) ==> v in m
    case AnyOf(_) => v in m ==> Holds(m, d)
  }

  ghost predicate Agree(m: Assignment, e: Assignment, vars: set<nat>) {
    forall v | v in vars :: v in m <==> v in e
  }

  /**
   Literals whose truth in a model of the clauses carries over to the
   canonical extension: input literals, negated counter outputs and
   disjunction variables. Every literal that ever gets a weight is one.
   */
  ghost predicate Soft(l: Lit, defs: Defs, inputs: set<nat>) {
    if l.v in defs then l.pos == defs[l.v].AnyOf? else l.v in inputs
  }

  /** A definition uses only older variables, in the polarity of its kind. */
  ghost predicate WfDef(v: nat, d: Def, defs: Defs, inputs: set<nat>) {
    forall l | l in d.lits ::
      l.v < v && Soft(if d.MoreThan? then Neg(l) else l, defs, inputs)
  }

  ghost predicate WfDefs(defs: Defs, inputs: set<nat>) {
    && defs.Keys !! inputs
    && forall v | v in defs :: WfDef(v, defs[v], defs, inputs)
  }

  /**
   The one-directional encodings are enough: a soft literal that is true in a
   model stays true in the canonical extension of the model's inputs.
   */
  lemma {:induction false} LeastExtension(m: Assignment, e: Assignment, l: Lit, defs: Defs, inputs: set<nat>)
    requires WfDefs(defs, inputs) && OneWay(m, defs) && Respects(e, defs) && Agree(m, e, inputs)
    requires Soft(l, defs, inputs) && True(m, l)
    ensures True(e, l)
    decreases l.v
  {
    if l.v in defs {
      var d := defs[l.v];
      assert WfDef(l.v, d, defs, inputs);
      assert OneWayAt(m, l.v, d);
      match d
      case AnyOf(lits) =>
        forall k | k in lits && True(m, k) ensures True(e, k) {
          LeastExtension(m, e, k, defs, inputs);
        }
        CountMonotone(m, e, lits);
      case MoreThan(lits, _) =>
        forall k | k in lits && True(e, k) ensures True(m, k) {
          if !True(m, k) {
            LeastExtension(m, e, Neg(k), defs, inputs);
          }
        }
        CountMonotone(e, m, lits);
    }
  }

  /** The canonical extension, computed variable by variable below `n`. */
  ghost function Extend(defs: Defs, x: Assignment, n: nat): (e: Assignment)
    ensures forall v | v !in defs :: v in e <==> v in x
    ensures forall v | v in e && v in defs :: v < n
  {
    if n == 0 then x - defs.Keys
    else
      var e := Extend(defs, x, n - 1);
      if n - 1 in defs && Holds(e, defs[n - 1]) then e + {n - 1} else e
  }

  lemma {:induction false} ExtendStable(defs: Defs, x: Assignment, n: nat, n': nat)
    requires n <= n'
    ensures forall v | v < n :: v in Extend(defs, x, n) <==> v in Extend(defs, x, n')
    decreases n'
  {
    if n < n' {
      ExtendStable(defs, x, n, n' - 1);
    }
  }

  lemma {:induction false} CountAgree(m: Assignment, e: Assignment, ls: seq<Lit>)
    requires forall l | l in ls :: l.v in m <==> l.v in e
    ensures Count(m, ls) == Count(e, ls)
  {
    if ls != [] {
      CountAgree(m, e, ls[1..]);
    }
  }

  /** Every input assignment has a canonical extension. */
  lemma ExtendRespects(defs: Defs, x: Assignment, inputs: set<nat>, n: nat)
    requires WfDefs(defs, inputs) && forall v | v in defs :: v < n
    ensures Respects(Extend(defs, x, n), defs)
    ensures Agree(x, Extend(defs, x, n), inputs)
  {
    var e := Extend(defs, x, n);
    forall v | v in defs ensures v in e <==> Holds(e, defs[v]) {
      var d := defs[v];
      assert WfDef(v, d, defs, inputs);
      ExtendStable(defs, x, v, n);
      ExtendStable(defs, x, v + 1, n);
      CountAgree(Extend(defs, x, v), e, d.lits);
    }
  }

  /** Respecting more definitions is respecting fewer. */
  lemma RespectsSubset(e: Assignment, defs: Defs, defs': Defs)
    requires Respects(e, defs')
    requires forall v | v in defs :: v in defs' && defs'[v] == defs[v]
    ensures Respects(e, defs)
  {
  }
}
