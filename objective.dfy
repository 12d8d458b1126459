/**
 * The optimisation direction of a FlatZinc model and the constraints that
 * are posted on its objective variable.
 */
module Objective {
  import opened Wrappers

  /** MyFlatZincSpace::method(): satisfaction, minimisation or maximisation. */
  datatype Meth = Sat | Min | Max

  /** A relation posted between the objective variable and a constant. */
  datatype Rel = Le | Lt | Ge | Gt

  /** `rel(obj, rel, n)`. */
  datatype ObjBound = ObjBound(rel: Rel, n: int)

  /** Whether an objective value v satisfies `obj rel n`. */
  predicate Holds(b: ObjBound, v: int)
  {
    match b.rel
    case Le => v <= b.n
    case Lt => v < b.n
    case Ge => v >= b.n
    case Gt => v > b.n
  }

  /** a is strictly better than b: smaller when minimising, larger when maximising. */
  predicate Improves(meth: Meth, a: int, b: int)
  {
    match meth
    case Sat => false
    case Min => a < b
    case Max => a > b
  }

  /**
   * An upper bound n (a `ub n` line, or `-add_ub n`): obj <= n when
   * minimising, obj >= n when maximising, nothing for satisfaction.
   */
  function UpperBound(meth: Meth, n: int): (r: Option<ObjBound>)
    ensures r.None? <==> meth == Sat
    ensures r.Some? ==> forall v :: Holds(r.value, v) <==> v == n || Improves(meth, v, n)
  {
    match meth
    case Sat => None
    case Min => Some(ObjBound(Le, n))
    case Max => Some(ObjBound(Ge, n))
  }

  /**
   * A lower bound n (an `lb n` line, or `-add_lb n`): the mirror image,
   * obj >= n when minimising and obj <= n when maximising.
   */
  function LowerBound(meth: Meth, n: int): (r: Option<ObjBound>)
    ensures r.None? <==> meth == Sat
    ensures r.Some? ==> forall v :: Holds(r.value, v) <==> v == n || Improves(meth, n, v)
  {
    match meth
    case Sat => None
    case Min => Some(ObjBound(Ge, n))
    case Max => Some(ObjBound(Le, n))
  }
}
