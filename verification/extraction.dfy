/**
 * Mention and instantiation extraction: which variables a bound list talks
 * about, and which of them an `α = T` / `T = α` bound already pins to a
 * proper type T (`getMentionedVariables`, `getInstantiations`,
 * `getUninstantiatedVariables`).
 */
module Extraction {
  import opened Terms

  /** getMentionedVariables: every variable on either side of some bound. */
  function MentionedVariables(bounds: seq<Bound>): (r: set<VarId>)
    ensures forall v :: v in r <==> exists i :: 0 <= i < |bounds| && v in BoundVariables(bounds[i])
  {
    if |bounds| == 0 then {}
    else
      var prefix := bounds[..|bounds| - 1];
      assert forall i :: 0 <= i < |prefix| ==> prefix[i] == bounds[i];
      MentionedVariables(prefix) + BoundVariables(bounds[|bounds| - 1])
  }

  /** The mentioned set depends only on which bounds occur, not on their order or repetition. */
  lemma MentionedIgnoresOrder(b1: seq<Bound>, b2: seq<Bound>)
    requires forall b :: b in b1 <==> b in b2
    ensures MentionedVariables(b1) == MentionedVariables(b2)
  {
    forall v | v in MentionedVariables(b1)
      ensures v in MentionedVariables(b2)
    {
      var i :| 0 <= i < |b1| && v in BoundVariables(b1[i]);
      assert b1[i] in b2;
    }
    forall v | v in MentionedVariables(b2)
      ensures v in MentionedVariables(b1)
    {
      var i :| 0 <= i < |b2| && v in BoundVariables(b2[i]);
      assert b2[i] in b1;
    }
  }

  /**
   * The instantiation one bound records: `α = T` and `T = α`, with α a bare
   * variable and T a proper type, both give (α, T); nothing else does.
   */
  function Instantiation(b: Bound): (r: Option<(VarId, TypeId)>)
    ensures r.Some? <==> b.rule == Equality && ((b.left.Var? && b.right.Proper?) || (b.left.Proper? && b.right.Var?))
    ensures r.Some? ==> BoundVariables(b) == {r.value.0}
  {
    if b.rule == Equality then
      if b.left.Var? && b.right.Proper? then Some((b.left.id, b.right.ty))
      else if b.left.Proper? && b.right.Var? then Some((b.right.id, b.left.ty))
      else None
    else None
  }

  /** `b` instantiates `v`. */
  predicate Instantiates(b: Bound, v: VarId)
  {
    Instantiation(b).Some? && Instantiation(b).value.0 == v
  }

  /**
   * getInstantiations. A variable is a key exactly when some bound
   * instantiates it; `InstantiationsLastWins` says which bound supplies the
   * value.
   */
  function Instantiations(bounds: seq<Bound>): (r: map<VarId, TypeId>)
    ensures forall v :: v in r <==> exists i :: 0 <= i < |bounds| && Instantiates(bounds[i], v)
  {
    if |bounds| == 0 then map[]
    else
      var prefix := bounds[..|bounds| - 1];
      assert forall i :: 0 <= i < |prefix| ==> prefix[i] == bounds[i];
      var prior := Instantiations(prefix);
      match Instantiation(bounds[|bounds| - 1])
      case Some((v, t)) => prior[v := t]
      case None => prior
  }

  /** Adding one bound that does not instantiate `v` leaves `v`'s entry as it was. */
  lemma InstantiationsSkip(bounds: seq<Bound>, v: VarId)
    requires |bounds| > 0 && !Instantiates(bounds[|bounds| - 1], v)
    ensures var prior := Instantiations(bounds[..|bounds| - 1]);
            (v in Instantiations(bounds) <==> v in prior)
            && (v in prior ==> Instantiations(bounds)[v] == prior[v])
  {
  }

  /**
   * The value recorded for a variable comes from the LAST bound that
   * instantiates it: a later bound silently overwrites an earlier one. The
   * lemma returns that bound's index.
   */
  lemma {:induction false} InstantiationsLastWins(bounds: seq<Bound>, v: VarId) returns (i: nat)
    requires v in Instantiations(bounds)
    ensures i < |bounds| && Instantiation(bounds[i]) == Some((v, Instantiations(bounds)[v]))
    ensures forall j :: i < j < |bounds| ==> !Instantiates(bounds[j], v)
  {
    var n := |bounds|;
    if Instantiates(bounds[n - 1], v) {
      i := n - 1;
    } else {
      var prefix := bounds[..n - 1];
      InstantiationsSkip(bounds, v);
      i := InstantiationsLastWins(prefix, v);
      LastWinsExtend(bounds, v, i, Instantiations(bounds)[v]);
    }
  }

  /** A bound added after the last bound instantiating `v` leaves that bound the last. */
  lemma LastWinsExtend(bounds: seq<Bound>, v: VarId, i: nat, t: TypeId)
    requires |bounds| > 0 && !Instantiates(bounds[|bounds| - 1], v)
    requires var prefix := bounds[..|bounds| - 1];
             i < |prefix| && Instantiation(prefix[i]) == Some((v, t))
             && forall j :: i < j < |prefix| ==> !Instantiates(prefix[j], v)
    ensures i < |bounds| && Instantiation(bounds[i]) == Some((v, t))
    ensures forall j :: i < j < |bounds| ==> !Instantiates(bounds[j], v)
  {
    var n := |bounds|;
    var prefix := bounds[..n - 1];
    assert bounds[i] == prefix[i];
    forall j | i < j < n
      ensures !Instantiates(bounds[j], v)
    {
      if j < n - 1 {
        assert bounds[j] == prefix[j];
      }
    }
  }

  /** Every instantiated variable is a mentioned one. */
  lemma InstantiatedAreMentioned(bounds: seq<Bound>)
    ensures Instantiations(bounds).Keys <= MentionedVariables(bounds)
  {
    forall v | v in Instantiations(bounds)
      ensures v in MentionedVariables(bounds)
    {
      var i :| 0 <= i < |bounds| && Instantiates(bounds[i], v);
      assert v in BoundVariables(bounds[i]);
    }
  }

  /**
   * getUninstantiatedVariables: the mentioned variables no bound
   * instantiates. Together with the instantiation keys they partition the
   * mentioned set.
   */
  function UninstantiatedVariables(bounds: seq<Bound>): (r: set<VarId>)
    ensures forall v :: v in r <==>
              v in MentionedVariables(bounds) && forall i :: 0 <= i < |bounds| ==> !Instantiates(bounds[i], v)
    ensures r + Instantiations(bounds).Keys == MentionedVariables(bounds)
    ensures r !! Instantiations(bounds).Keys
  {
    InstantiatedAreMentioned(bounds);
    MentionedVariables(bounds) - Instantiations(bounds).Keys
  }

  /** The three shapes of the instantiation examples: `α = T`, `T = α` and `α <: T`. */
  lemma InstantiationExamples(a: VarId, t: TypeId)
    ensures Instantiations([Bound(Var(a), Proper(t), Equality)]) == map[a := t]
    ensures Instantiations([Bound(Proper(t), Var(a), Equality)]) == map[a := t]
    ensures Instantiations([Bound(Var(a), Proper(t), Subtype)]) == map[]
  {
  }

  /** Two conflicting instantiations of one variable: the later bound wins. */
  lemma LaterInstantiationWins(a: VarId, t1: TypeId, t2: TypeId)
    ensures Instantiations([Bound(Var(a), Proper(t1), Equality), Bound(Proper(t2), Var(a), Equality)]) == map[a := t2]
  {
  }
}
