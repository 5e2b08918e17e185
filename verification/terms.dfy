/**
 * The data the type-inference resolver works on: inference variables,
 * proper types, the terms a bound relates, bounds and constraints.
 *
 * `Variable`, `JavaTypeDefinition`, `Bound` and `Constraint` are classes of
 * the surrounding type checker; only the accessors the resolver calls are
 * modelled, as functions on `Term`.
 */
module Terms {

  datatype Option<+T> = None | Some(value: T)

  /** An inference variable. Two variables are the same exactly when their ids are. */
  type VarId = nat

  /** An opaque proper type (a type that mentions no inference variable). */
  type TypeId = nat

  /**
   * One side of a bound: a bare inference variable, a proper type, or a
   * compound type (a generic application, say) that is neither. A compound
   * term that mentions a tracked variable records it in `mentioned`.
   */
  datatype Term =
    | Var(id: VarId)
    | Proper(ty: TypeId)
    | Compound(mentioned: Option<VarId>)

  /** The two relations a bound or constraint can assert. */
  datatype Rule = Equality | Subtype

  /** `left = right` or `left <: right`. */
  datatype Bound = Bound(left: Term, right: Term, rule: Rule)

  /** Output of incorporation: shaped like a bound, but still to be reduced. */
  datatype Constraint = Constraint(left: Term, right: Term, rule: Rule)

  /** `leftVariable()` / `rightVariable()`: the variable of a bare-variable side, otherwise null. */
  function AsVariable(t: Term): (r: Option<VarId>)
    ensures r.Some? <==> t.Var?
    ensures r.Some? ==> t == Var(r.value)
  {
    match t
    case Var(v) => Some(v)
    case _ => None
  }

  /**
   * `leftHasMentionedVariable()` / `getLeftMentionedVariable()` (and the right
   * counterparts): the variable a side is, or mentions.
   */
  function MentionedVariable(t: Term): (r: Option<VarId>)
    ensures r.Some? ==> r.value in TermVariables(t)
    ensures t.Proper? ==> r.None?
  {
    match t
    case Var(v) => Some(v)
    case Proper(_) => None
    case Compound(m) => m
  }

  /** The variables `addVariablesToSet` collects from one side. */
  function TermVariables(t: Term): set<VarId>
  {
    match t
    case Var(v) => {v}
    case Proper(_) => {}
    case Compound(m) => if m.Some? then {m.value} else {}
  }

  /** The variables `addVariablesToSet` collects from a whole bound. */
  function BoundVariables(b: Bound): set<VarId>
  {
    TermVariables(b.left) + TermVariables(b.right)
  }
}
